/** The many-to-many relation between users and actors as the generated models keep it in memory
    (internal/models/users.go and its mirror image internal/models/actors.go): each object lists the objects
    it is related to, and the join table holds the pairs. Both sides run the same code, so one kind of
    object stands for both; its key says which side it is on. */
module Relations {
  import opened Sequences

  // ---------- lists ----------

  /** Deletion in place: the last element moves into the hole. */
  function SwapRemove<T>(s: seq<T>, i: nat): seq<T>
    requires i < |s|
  {
    s[i := s[|s| - 1]][..|s| - 1]
  }

  /** Removes one occurrence of the object itself. */
  function RemoveFirst<T(==)>(s: seq<T>, x: T): seq<T> {
    if x in s then SwapRemove(s, IndexOf(s, x)) else s
  }

  function RemoveEach<T(==)>(s: seq<T>, xs: seq<T>): seq<T> {
    if xs == [] then s else RemoveFirst(RemoveEach(s, xs[..|xs| - 1]), xs[|xs| - 1])
  }

  /** The last element takes the place of the one removed; the others stay where they are. */
  lemma SwapRemovePositions<T>(s: seq<T>, i: nat, k: nat)
    requires i < |s| && k < |s| - 1
    ensures |SwapRemove(s, i)| == |s| - 1
    ensures SwapRemove(s, i)[k] == if k == i then s[|s| - 1] else s[k]
  {
  }

  lemma SwapRemoveTakesOne<T>(s: seq<T>, i: nat)
    requires i < |s|
    ensures multiset(SwapRemove(s, i)) == multiset(s) - multiset{s[i]}
  {
    var n := |s| - 1;
    assert s == s[..n] + [s[n]];
    if i < n {
      assert SwapRemove(s, i) == s[..n][i := s[n]];
      assert multiset(s[..n][i := s[n]]) == multiset(s[..n]) - multiset{s[i]} + multiset{s[n]};
    } else {
      assert SwapRemove(s, i) == s[..n];
    }
  }

  /** A removal takes exactly one occurrence of each given element that is there, and nothing else. */
  lemma {:induction false} RemoveEachTakesThem<T>(s: seq<T>, xs: seq<T>)
    ensures multiset(RemoveEach(s, xs)) == multiset(s) - multiset(xs)
  {
    if xs != [] {
      var n := |xs| - 1;
      RemoveEachTakesThem(s, xs[..n]);
      RemoveFirstTakesOne(RemoveEach(s, xs[..n]), xs[n]);
      LastElement(xs);
    }
  }

  lemma RemoveFirstTakesOne<T>(s: seq<T>, x: T)
    ensures multiset(RemoveFirst(s, x)) == multiset(s) - multiset{x}
  {
    if x in s {
      SwapRemoveTakesOne(s, IndexOf(s, x));
    } else {
      assert x !in multiset(s);
    }
  }

  lemma LastElement<T>(s: seq<T>)
    requires s != []
    ensures multiset(s) == multiset(s[..|s| - 1]) + multiset{s[|s| - 1]}
  {
    assert s == s[..|s| - 1] + [s[|s| - 1]];
  }

  // ---------- the relation as a value ----------

  /** Primary keys: users are known by name, actors by identifier. */
  datatype Key = User(name: string) | Actor(id: string)

  predicate Opposite(x: Key, y: Key) {
    x.User? != y.User?
  }

  /** The row (user, actor) that joins two objects, whichever side asks for it. */
  function Row(x: Key, y: Key): (string, string)
    requires Opposite(x, y)
  {
    if x.User? then (x.name, y.id) else (y.name, x.id)
  }

  /** `keys` says which objects are in memory, `lists[x]` is the list object x carries, `rows` is the table. */
  datatype Graph<T(==)> = Graph(keys: map<T, Key>, lists: map<T, seq<T>>, rows: set<(string, string)>)

  predicate Joinable<T(==)>(keys: map<T, Key>, o: T, related: seq<T>) {
    o in keys && forall x | x in related :: x in keys && Opposite(keys[o], keys[x])
  }

  predicate Knows<T(==)>(g: Graph<T>, o: T, related: seq<T>) {
    g.keys.Keys == g.lists.Keys && Joinable(g.keys, o, related)
  }

  /** The inserts into the join table, up to the first that fails: a pair that exists is refused. */
  function InsertRows<T(==)>(rows: set<(string, string)>, keys: map<T, Key>, o: T, related: seq<T>,
                             refused: nat -> bool, i: nat): (set<(string, string)>, bool)
    requires Joinable(keys, o, related)
    decreases |related| - i
  {
    if i >= |related| then (rows, true)
    else
      var row := Row(keys[o], keys[related[i]]);
      if refused(i) || row in rows then (rows, false)
      else InsertRows(rows + {row}, keys, o, related, refused, i + 1)
  }

  function RowsOf<T(==)>(keys: map<T, Key>, o: T, related: seq<T>): set<(string, string)>
    requires Joinable(keys, o, related)
  {
    set x | x in related :: Row(keys[o], keys[x])
  }

  /** Appends o to the list of each given object. */
  function AppendTo<T(==)>(lists: map<T, seq<T>>, related: seq<T>, o: T): (r: map<T, seq<T>>)
    requires forall x | x in related :: x in lists
    ensures r.Keys == lists.Keys
  {
    if related == [] then lists
    else
      var n := |related| - 1;
      var m := AppendTo(lists, related[..n], o);
      m[related[n] := m[related[n]] + [o]]
  }

  /** The position of the first object with the given key; the length of the list if there is none. */
  function FindKey<T(==)>(s: seq<T>, keys: map<T, Key>, k: Key): (i: nat)
    ensures i <= |s|
    ensures i < |s| ==> s[i] in keys && keys[s[i]] == k
    ensures forall x | x in s[..i] && x in keys :: keys[x] != k
  {
    if s == [] then 0
    else if s[0] in keys && keys[s[0]] == k then 0
    else 1 + FindKey(s[1..], keys, k)
  }

  function RemoveKey<T(==)>(s: seq<T>, keys: map<T, Key>, k: Key): seq<T> {
    var i := FindKey(s, keys, k);
    if i < |s| then SwapRemove(s, i) else s
  }

  /** Removes one object with the given key from the list of each given object. */
  function DropFrom<T(==)>(lists: map<T, seq<T>>, keys: map<T, Key>, related: seq<T>, k: Key): (r: map<T, seq<T>>)
    requires forall x | x in related :: x in lists
    ensures r.Keys == lists.Keys
  {
    if related == [] then lists
    else
      var n := |related| - 1;
      var m := DropFrom(lists, keys, related[..n], k);
      m[related[n] := RemoveKey(m[related[n]], keys, k)]
  }

  function Add<T(==)>(g: Graph<T>, o: T, related: seq<T>, refused: nat -> bool): (Graph<T>, bool)
    requires Knows(g, o, related)
  {
    var (rows, ok) := InsertRows(g.rows, g.keys, o, related, refused, 0);
    if !ok then (g.(rows := rows), false)
    else (g.(lists := AppendTo(g.lists[o := g.lists[o] + related], related, o), rows := rows), true)
  }

  /** One side is found by key, the other by the object itself. */
  function Remove<T(==)>(g: Graph<T>, o: T, related: seq<T>, refused: bool): (Graph<T>, bool)
    requires Knows(g, o, related)
  {
    if related == [] then (g, true)
    else if refused then (g, false)
    else
      var dropped := DropFrom(g.lists, g.keys, related, g.keys[o]);
      (g.(lists := dropped[o := RemoveEach(dropped[o], related)], rows := g.rows - RowsOf(g.keys, o, related)), true)
  }

  predicate HasKey(row: (string, string), k: Key) {
    if k.User? then row.0 == k.name else row.1 == k.id
  }

  function RowsWithout(rows: set<(string, string)>, k: Key): set<(string, string)> {
    set r | r in rows && !HasKey(r, k)
  }

  /** The first half of a replacement: no row of o and an empty list; only the new list is repaired on the
      other side. */
  function Emptied<T(==)>(g: Graph<T>, o: T, related: seq<T>): (r: Graph<T>)
    requires Knows(g, o, related)
    ensures Knows(r, o, related)
  {
    g.(lists := DropFrom(g.lists, g.keys, related, g.keys[o])[o := []],
       rows := RowsWithout(g.rows, g.keys[o]))
  }

  /** Replaces the list of o. */
  function Replace<T(==)>(g: Graph<T>, o: T, related: seq<T>, deleteRefused: bool, refused: nat -> bool)
    : (Graph<T>, bool)
    requires Knows(g, o, related)
  {
    if deleteRefused then (g, false) else Add(Emptied(g, o, related), o, related, refused)
  }

  // ---------- the two sides agree ----------

  function Count<T(==)>(s: seq<T>, x: T): nat {
    multiset(s)[x]
  }

  lemma CountLast<T>(s: seq<T>, x: T)
    requires s != []
    ensures Count(s, x) == Count(s[..|s| - 1], x) + if s[|s| - 1] == x then 1 else 0
  {
    LastElement(s);
  }

  /** One object stands for each primary key. */
  predicate OnePerKey<T(==)>(keys: map<T, Key>) {
    forall x, y | x in keys && y in keys :: keys[x] == keys[y] ==> x == y
  }

  predicate Closed<T(==)>(lists: map<T, seq<T>>) {
    forall x | x in lists :: forall y | y in lists[x] :: y in lists
  }

  /** Each object occurs in the list of another as often as that one occurs in its own. */
  predicate TwoSided<T(==)>(lists: map<T, seq<T>>) {
    Closed(lists) && forall x, y | x in lists && y in lists :: Count(lists[x], y) == Count(lists[y], x)
  }

  lemma {:induction false} AppendToCounts<T>(lists: map<T, seq<T>>, related: seq<T>, o: T, x: T, y: T)
    requires (forall z | z in related :: z in lists) && x in lists
    ensures Count(AppendTo(lists, related, o)[x], y) == Count(lists[x], y) + if y == o then Count(related, x) else 0
  {
    if related != [] {
      var n := |related| - 1;
      AppendToCounts(lists, related[..n], o, x, y);
      CountLast(related, x);
    }
  }

  function Minus(m: nat, n: nat): nat {
    if m > n then m - n else 0
  }

  /** The removal by key, from each list in turn, meets o itself before any other object with the key of o. */
  predicate TakesOwn<T(==)>(lists: map<T, seq<T>>, keys: map<T, Key>, related: seq<T>, o: T)
    requires o in keys && forall z | z in related :: z in lists
  {
    related == [] ||
    var n := |related| - 1;
    var s := DropFrom(lists, keys, related[..n], keys[o])[related[n]];
    var i := FindKey(s, keys, keys[o]);
    TakesOwn(lists, keys, related[..n], o) && (i < |s| ==> s[i] == o)
  }

  lemma {:induction false} OnePerKeyTakesOwn<T>(lists: map<T, seq<T>>, keys: map<T, Key>, related: seq<T>, o: T)
    requires (forall z | z in related :: z in lists) && OnePerKey(keys) && o in keys
    ensures TakesOwn(lists, keys, related, o)
  {
    if related != [] {
      OnePerKeyTakesOwn(lists, keys, related[..|related| - 1], o);
    }
  }

  lemma RemoveKeyCounts<T>(s: seq<T>, keys: map<T, Key>, o: T, y: T)
    requires o in keys
    requires var i := FindKey(s, keys, keys[o]); i < |s| ==> s[i] == o
    ensures Count(RemoveKey(s, keys, keys[o]), y) == Minus(Count(s, y), if y == o then 1 else 0)
  {
    var i := FindKey(s, keys, keys[o]);
    if i < |s| {
      SwapRemoveTakesOne(s, i);
    } else {
      assert s[..i] == s;
      assert o !in s;
    }
  }

  /** What dropping o from one more list does. */
  lemma DropsLast<T>(lists: map<T, seq<T>>, keys: map<T, Key>, related: seq<T>, o: T, x: T, y: T)
    requires (forall z | z in related :: z in lists) && x in lists && o in keys
    requires related != [] && TakesOwn(lists, keys, related, o)
    ensures var front := DropFrom(lists, keys, related[..|related| - 1], keys[o]);
            Count(DropFrom(lists, keys, related, keys[o])[x], y)
            == Minus(Count(front[x], y), if y == o && related[|related| - 1] == x then 1 else 0)
  {
    var n := |related| - 1;
    RemoveKeyCounts(DropFrom(lists, keys, related[..n], keys[o])[related[n]], keys, o, y);
  }

  lemma {:induction false} DropFromCounts<T>(lists: map<T, seq<T>>, keys: map<T, Key>, related: seq<T>, o: T, x: T,
      y: T)
    requires (forall z | z in related :: z in lists) && x in lists && o in keys && TakesOwn(lists, keys, related, o)
    ensures Count(DropFrom(lists, keys, related, keys[o])[x], y)
         == Minus(Count(lists[x], y), if y == o then Count(related, x) else 0)
  {
    if related != [] {
      var n := |related| - 1;
      DropFromCounts(lists, keys, related[..n], o, x, y);
      CountLast(related, x);
      DropsLast(lists, keys, related, o, x, y);
    }
  }

  lemma RemoveKeySheds<T>(s: seq<T>, keys: map<T, Key>, k: Key, y: T)
    ensures Count(RemoveKey(s, keys, k), y) <= Count(s, y)
  {
    var i := FindKey(s, keys, k);
    if i < |s| {
      SwapRemoveTakesOne(s, i);
    }
  }

  lemma {:induction false} DropFromSheds<T>(lists: map<T, seq<T>>, keys: map<T, Key>, related: seq<T>, k: Key, x: T,
      y: T)
    requires (forall z | z in related :: z in lists) && x in lists
    ensures Count(DropFrom(lists, keys, related, k)[x], y) <= Count(lists[x], y)
  {
    if related != [] {
      var n := |related| - 1;
      DropFromSheds(lists, keys, related[..n], k, x, y);
      RemoveKeySheds(DropFrom(lists, keys, related[..n], k)[related[n]], keys, k, y);
    }
  }

  lemma {:induction false} DropFromLeaves<T>(lists: map<T, seq<T>>, keys: map<T, Key>, related: seq<T>, k: Key, x: T)
    requires (forall z | z in related :: z in lists) && x in lists && x !in related
    ensures DropFrom(lists, keys, related, k)[x] == lists[x]
  {
    if related != [] {
      DropFromLeaves(lists, keys, related[..|related| - 1], k, x);
    }
  }

  /** Otherwise some list loses an object that merely has the key of o. */
  lemma {:induction false} AnotherIsTaken<T>(lists: map<T, seq<T>>, keys: map<T, Key>, related: seq<T>, o: T)
    returns (z: T, x: T)
    requires (forall z | z in related :: z in lists) && o in keys && !TakesOwn(lists, keys, related, o)
    ensures z in related && x != o && x in keys && keys[x] == keys[o]
    ensures Count(DropFrom(lists, keys, related, keys[o])[z], x) < Count(lists[z], x)
  {
    var n := |related| - 1;
    var dropped := DropFrom(lists, keys, related[..n], keys[o]);
    var s := dropped[related[n]];
    var i := FindKey(s, keys, keys[o]);
    if TakesOwn(lists, keys, related[..n], o) {
      z, x := related[n], s[i];
      DropFromSheds(lists, keys, related[..n], keys[o], z, x);
      SwapRemoveTakesOne(s, i);
      assert x in multiset(s);
    } else {
      z, x := AnotherIsTaken(lists, keys, related[..n], o);
      if z == related[n] && i < |s| {
        SwapRemoveTakesOne(s, i);
      }
    }
  }

  lemma NotRelatedToItself<T>(keys: map<T, Key>, o: T, related: seq<T>)
    requires Joinable(keys, o, related)
    ensures Count(related, o) == 0
  {
    assert o !in related;
  }

  /** The lists after a successful add, and after a removal. */
  lemma AddCounts<T>(g: Graph<T>, o: T, related: seq<T>, refused: nat -> bool, x: T, y: T)
    requires Knows(g, o, related) && Add(g, o, related, refused).1 && x in g.lists
    ensures Count(Add(g, o, related, refused).0.lists[x], y)
         == Count(g.lists[x], y) + (if x == o then Count(related, y) else 0) + (if y == o then Count(related, x) else 0)
  {
    AppendToCounts(g.lists[o := g.lists[o] + related], related, o, x, y);
  }

  lemma RemoveCounts<T>(g: Graph<T>, o: T, related: seq<T>, x: T, y: T)
    requires Knows(g, o, related) && TakesOwn(g.lists, g.keys, related, o) && x in g.lists && related != []
    ensures Count(Remove(g, o, related, false).0.lists[x], y)
         == Minus(Count(g.lists[x], y),
            (if x == o then Count(related, y) else 0) + (if y == o then Count(related, x) else 0))
  {
    DropFromCounts(g.lists, g.keys, related, o, x, y);
    NotRelatedToItself(g.keys, o, related);
    RemoveEachTakesThem(DropFrom(g.lists, g.keys, related, g.keys[o])[o], related);
  }

  lemma AddKeepsTwoSided<T>(g: Graph<T>, o: T, related: seq<T>, refused: nat -> bool)
    requires Knows(g, o, related) && TwoSided(g.lists)
    ensures TwoSided(Add(g, o, related, refused).0.lists)
  {
    var (g', ok) := Add(g, o, related, refused);
    if ok {
      forall x, y | x in g'.lists && y in g'.lists[x] ensures y in g'.lists {
        AddCounts(g, o, related, refused, x, y);
        assert y in multiset(g'.lists[x]);
        assert y in g.lists[x] || y in related || y == o;
      }
      forall x, y | x in g'.lists && y in g'.lists ensures Count(g'.lists[x], y) == Count(g'.lists[y], x) {
        AddCounts(g, o, related, refused, x, y);
        AddCounts(g, o, related, refused, y, x);
        assert Count(g.lists[x], y) == Count(g.lists[y], x);
      }
    }
  }

  lemma RemoveOwnKeepsTwoSided<T>(g: Graph<T>, o: T, related: seq<T>)
    requires Knows(g, o, related) && TwoSided(g.lists) && TakesOwn(g.lists, g.keys, related, o)
    ensures TwoSided(Remove(g, o, related, false).0.lists)
  {
    var g' := Remove(g, o, related, false).0;
    if related != [] {
      forall x, y | x in g'.lists && y in g'.lists[x] ensures y in g'.lists {
        RemoveCounts(g, o, related, x, y);
        assert y in multiset(g'.lists[x]);
        assert y in g.lists[x];
      }
      forall x, y | x in g'.lists && y in g'.lists ensures Count(g'.lists[x], y) == Count(g'.lists[y], x) {
        RemoveCounts(g, o, related, x, y);
        RemoveCounts(g, o, related, y, x);
        assert Count(g.lists[x], y) == Count(g.lists[y], x);
      }
    }
  }

  lemma OneSided<T>(lists: map<T, seq<T>>, x: T, y: T)
    requires x in lists && y in lists && Count(lists[x], y) != Count(lists[y], x)
    ensures !TwoSided(lists)
  {
  }

  lemma RemoveOtherBreaksTwoSided<T>(g: Graph<T>, o: T, related: seq<T>)
    requires Knows(g, o, related) && TwoSided(g.lists) && !TakesOwn(g.lists, g.keys, related, o)
    ensures !TwoSided(Remove(g, o, related, false).0.lists)
  {
    var z, x := AnotherIsTaken(g.lists, g.keys, related, o);
    var dropped := DropFrom(g.lists, g.keys, related, g.keys[o]);
    var lists' := Remove(g, o, related, false).0.lists;
    assert Opposite(g.keys[o], g.keys[z]);
    assert x !in related;
    DropFromLeaves(g.lists, g.keys, related, g.keys[o], x);
    assert Count(lists'[x], z) == Count(g.lists[x], z) == Count(g.lists[z], x);
    assert lists'[z] == dropped[z];
    OneSided(lists', x, z);
  }

  /** A removal keeps the two sides equal exactly when it fails, or finds o itself in the lists it searches by key. */
  lemma {:induction false} RemoveKeepsTwoSidedExactly<T>(g: Graph<T>, o: T, related: seq<T>, refused: bool)
    requires Knows(g, o, related) && TwoSided(g.lists)
    ensures TwoSided(Remove(g, o, related, refused).0.lists) <==> refused || TakesOwn(g.lists, g.keys, related, o)
  {
    if refused || related == [] {
      assert Remove(g, o, related, refused).0 == g;
    } else if TakesOwn(g.lists, g.keys, related, o) {
      RemoveOwnKeepsTwoSided(g, o, related);
    } else {
      RemoveOtherBreaksTwoSided(g, o, related);
    }
  }

  /** With one object for each key, every removal keeps them equal. */
  lemma RemoveKeepsTwoSided<T>(g: Graph<T>, o: T, related: seq<T>, refused: bool)
    requires Knows(g, o, related) && TwoSided(g.lists) && OnePerKey(g.keys)
    ensures TwoSided(Remove(g, o, related, refused).0.lists)
  {
    OnePerKeyTakesOwn(g.lists, g.keys, related, o);
    RemoveKeepsTwoSidedExactly(g, o, related, refused);
  }

  datatype Who = First | Second | Target

  function KeyOf(x: Who): Key {
    if x == Target then Actor("a") else User("u")
  }

  function ListOf(x: Who): seq<Who> {
    if x == Target then [First, Second] else [Target]
  }

  /** Two objects for one user, both related to one actor. */
  const TWICE: Graph<Who> := Graph(map x | x in {First, Second, Target} :: KeyOf(x),
                                   map x | x in {First, Second, Target} :: ListOf(x), {("u", "a")})

  lemma ListOfCounts(x: Who, y: Who)
    ensures Count(ListOf(x), y) == if (x == Target) != (y == Target) then 1 else 0
  {
  }

  lemma TwiceIsClosed()
    ensures Closed(TWICE.lists) && Knows(TWICE, Second, [Target])
  {
  }

  lemma PairOfTwice(x: Who, y: Who)
    ensures x in TWICE.lists && y in TWICE.lists && Count(TWICE.lists[x], y) == Count(TWICE.lists[y], x)
  {
    ListOfCounts(x, y);
    ListOfCounts(y, x);
  }

  lemma TwiceIsTwoSided()
    ensures TwoSided(TWICE.lists)
  {
    TwiceIsClosed();
    forall x, y | x in TWICE.lists && y in TWICE.lists ensures Count(TWICE.lists[x], y) == Count(TWICE.lists[y], x) {
      PairOfTwice(x, y);
    }
  }

  /** A removal asked of the second object takes the first out of the list of the actor. */
  lemma {:induction false} TwoObjectsForOneKeyDisagree()
    ensures TwoSided(TWICE.lists) && !TwoSided(Remove(TWICE, Second, [Target], false).0.lists)
  {
    TwiceIsTwoSided();
    TwiceIsClosed();
    var s := DropFrom(TWICE.lists, TWICE.keys, [Target][..0], TWICE.keys[Second])[Target];
    assert s == [First, Second];
    assert FindKey(s, TWICE.keys, TWICE.keys[Second]) == 0;
    assert !TakesOwn(TWICE.lists, TWICE.keys, [Target], Second);
    RemoveKeepsTwoSidedExactly(TWICE, Second, [Target], false);
  }

  // ---------- replacing a list ----------

  lemma ReplaceCounts<T>(g: Graph<T>, o: T, related: seq<T>, refused: nat -> bool, x: T, y: T)
    requires Knows(g, o, related) && OnePerKey(g.keys) && o !in g.lists[o] && x in g.lists
    ensures var (g', ok) := Replace(g, o, related, false, refused);
            Count(g'.lists[x], y) ==
              if x == o then (if ok then Count(related, y) else 0)
              else if y == o then Minus(Count(g.lists[x], o), Count(related, x)) + (if ok then Count(related, x) else 0)
              else Count(g.lists[x], y)
  {
    OnePerKeyTakesOwn(g.lists, g.keys, related, o);
    DropFromCounts(g.lists, g.keys, related, o, x, y);
    NotRelatedToItself(g.keys, o, related);
    if Replace(g, o, related, false, refused).1 {
      AddCounts(Emptied(g, o, related), o, related, refused, x, y);
    }
  }

  /** The two lists of a pair agree after a replacement, unless it drops one of them from the other. */
  lemma ReplacedPair<T>(g: Graph<T>, o: T, related: seq<T>, refused: nat -> bool, x: T, y: T)
    requires Knows(g, o, related) && OnePerKey(g.keys) && TwoSided(g.lists) && o !in g.lists[o]
    requires x in g.lists && y in g.lists
    ensures var lists' := Replace(g, o, related, false, refused).0.lists;
            Count(lists'[x], y) == Count(lists'[y], x) <==>
              && (x == o ==> Count(g.lists[o], y) <= Count(related, y))
              && (y == o ==> Count(g.lists[o], x) <= Count(related, x))
  {
    ReplaceCounts(g, o, related, refused, x, y);
    ReplaceCounts(g, o, related, refused, y, x);
    NotRelatedToItself(g.keys, o, related);
    assert Count(g.lists[x], y) == Count(g.lists[y], x);
    assert Count(g.lists[o], o) == 0;
  }

  lemma ReplaceKeepsClosed<T>(g: Graph<T>, o: T, related: seq<T>, refused: nat -> bool)
    requires Knows(g, o, related) && OnePerKey(g.keys) && Closed(g.lists) && o !in g.lists[o]
    ensures Closed(Replace(g, o, related, false, refused).0.lists)
  {
    var g' := Replace(g, o, related, false, refused).0;
    forall x, y | x in g'.lists && y in g'.lists[x] ensures y in g'.lists {
      ReplaceCounts(g, o, related, refused, x, y);
      assert y in multiset(g'.lists[x]);
      assert y in g.lists[x] || y in related || y == o;
    }
  }

  predicate DropsNobody<T(==)>(s: seq<T>, related: seq<T>) {
    forall y | y in s :: Count(s, y) <= Count(related, y)
  }

  lemma ReplaceAllKeepsTwoSided<T>(g: Graph<T>, o: T, related: seq<T>, refused: nat -> bool)
    requires Knows(g, o, related) && OnePerKey(g.keys) && TwoSided(g.lists) && o !in g.lists[o]
    requires DropsNobody(g.lists[o], related)
    ensures TwoSided(Replace(g, o, related, false, refused).0.lists)
  {
    var lists' := Replace(g, o, related, false, refused).0.lists;
    ReplaceKeepsClosed(g, o, related, refused);
    NobodyDropped(g.lists[o], related);
    forall x, y | x in lists' && y in lists' ensures Count(lists'[x], y) == Count(lists'[y], x) {
      ReplacedPair(g, o, related, refused, x, y);
    }
  }

  lemma ReplaceSomeBreaksTwoSided<T>(g: Graph<T>, o: T, related: seq<T>, refused: nat -> bool)
    requires Knows(g, o, related) && OnePerKey(g.keys) && TwoSided(g.lists) && o !in g.lists[o]
    requires !DropsNobody(g.lists[o], related)
    ensures !TwoSided(Replace(g, o, related, false, refused).0.lists)
  {
    var y :| y in g.lists[o] && Count(g.lists[o], y) > Count(related, y);
    ReplacedPair(g, o, related, refused, o, y);
    OneSided(Replace(g, o, related, false, refused).0.lists, o, y);
  }

  /** Replacing a list keeps the two sides equal exactly when nothing is deleted or nobody is dropped. */
  lemma ReplaceKeepsTwoSidedExactly<T>(g: Graph<T>, o: T, related: seq<T>, deleteRefused: bool, refused: nat -> bool)
    requires Knows(g, o, related) && OnePerKey(g.keys) && TwoSided(g.lists) && o !in g.lists[o]
    ensures TwoSided(Replace(g, o, related, deleteRefused, refused).0.lists)
       <==> deleteRefused || DropsNobody(g.lists[o], related)
  {
    if deleteRefused {
      assert Replace(g, o, related, deleteRefused, refused).0 == g;
    } else if DropsNobody(g.lists[o], related) {
      ReplaceAllKeepsTwoSided(g, o, related, refused);
    } else {
      ReplaceSomeBreaksTwoSided(g, o, related, refused);
    }
  }

  lemma NobodyDropped<T>(s: seq<T>, related: seq<T>)
    requires DropsNobody(s, related)
    ensures forall y :: Count(s, y) <= Count(related, y)
  {
    forall y ensures Count(s, y) <= Count(related, y) {
      if y !in s {
        assert y !in multiset(s);
      }
    }
  }
}

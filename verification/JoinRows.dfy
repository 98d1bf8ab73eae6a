/** The lists of module Relations against the rows of the join table. */
module JoinRows {
  import opened Relations

  /** No object lists another twice, and two known objects list each other just when their row is in the table. */
  predicate Mirrored<T(==)>(g: Graph<T>) {
    && g.keys.Keys == g.lists.Keys
    && OnePerKey(g.keys)
    && (forall x | x in g.lists :: forall y | y in g.lists[x] :: y in g.lists && Opposite(g.keys[x], g.keys[y]))
    && (forall x, y | x in g.keys && y in g.keys && Opposite(g.keys[x], g.keys[y]) :: Agrees(g, x, y))
  }

  predicate Agrees<T(==)>(g: Graph<T>, x: T, y: T)
    requires x in g.keys && y in g.keys && x in g.lists && Opposite(g.keys[x], g.keys[y])
  {
    Count(g.lists[x], y) == if Row(g.keys[x], g.keys[y]) in g.rows then 1 else 0
  }

  /** Both ends of every row are in memory. */
  predicate Loaded<T(==)>(g: Graph<T>) {
    forall r | r in g.rows :: User(r.0) in g.keys.Values && Actor(r.1) in g.keys.Values
  }

  lemma Occurs<T>(s: seq<T>, y: T)
    ensures y in s <==> Count(s, y) > 0
  {
    assert y in s <==> y in multiset(s);
  }

  /** The keys an object lists are, without repetition, the keys its rows hold. */
  lemma ListedKeysAreRows<T>(g: Graph<T>, u: T)
    requires Mirrored(g) && Loaded(g) && u in g.keys && g.keys[u].User?
    ensures (set a | a in g.lists[u] :: g.keys[a]) == (set r | r in g.rows && r.0 == g.keys[u].name :: Actor(r.1))
    ensures forall i, j | 0 <= i < j < |g.lists[u]| :: g.keys[g.lists[u][i]] != g.keys[g.lists[u][j]]
  {
    var s := g.lists[u];
    forall a | a in s ensures Row(g.keys[u], g.keys[a]) in g.rows {
      Occurs(s, a);
      assert Agrees(g, u, a);
    }
    forall r | r in g.rows && r.0 == g.keys[u].name ensures exists a | a in s :: g.keys[a] == Actor(r.1) {
      var a :| a in g.keys && g.keys[a] == Actor(r.1);
      assert Row(g.keys[u], g.keys[a]) == r;
      assert Agrees(g, u, a);
      Occurs(s, a);
    }
    var listed, held := set a | a in s :: g.keys[a], set r | r in g.rows && r.0 == g.keys[u].name :: Actor(r.1);
    forall k | k in listed ensures k in held {
      var a :| a in s && g.keys[a] == k;
      assert Row(g.keys[u], k) in g.rows;
    }
    forall i, j | 0 <= i < j < |s| ensures g.keys[s[i]] != g.keys[s[j]] {
      assert Agrees(g, u, s[i]);
      if s[i] == s[j] {
        CountsTwice(s, i, j);
      }
    }
  }

  lemma CountsTwice<T>(s: seq<T>, i: nat, j: nat)
    requires i < j < |s| && s[i] == s[j]
    ensures Count(s, s[i]) >= 2
  {
    assert s == s[..j] + s[j..];
    assert s[i] in multiset(s[..j]) by { assert s[..j][i] == s[i]; }
    assert s[j] in multiset(s[j..]) by { assert s[j..][0] == s[j]; }
  }

  // ---------- adding ----------

  lemma {:induction false} InsertedRows<T>(rows: set<(string, string)>, keys: map<T, Key>, o: T, related: seq<T>,
                                          refused: nat -> bool, i: nat)
    requires Joinable(keys, o, related) && i <= |related|
    ensures var (rows', ok) := InsertRows(rows, keys, o, related, refused, i);
            && rows <= rows' <= rows + RowsOf(keys, o, related)
            && (ok ==> forall x | x in related[i..] ::
                  var row := Row(keys[o], keys[x]); row in rows' && row !in rows && Count(related[i..], x) == 1)
            && (ok ==> forall r | r in rows' && r !in rows ::
                         exists x | x in related[i..] :: r == Row(keys[o], keys[x]))
    decreases |related| - i
  {
    if i < |related| {
      var row := Row(keys[o], keys[related[i]]);
      if !refused(i) && row !in rows {
        var next := rows + {row};
        InsertedRows(next, keys, o, related, refused, i + 1);
        var (rows', ok) := InsertRows(next, keys, o, related, refused, i + 1);
        assert related[i..] == [related[i]] + related[i + 1..];
        if ok {
          forall r | r in rows' && r !in rows ensures exists x | x in related[i..] :: r == Row(keys[o], keys[x]) {
            if r == row {
              assert related[i] in related[i..];
            }
          }
        }
      }
    }
  }

  /** A row of o and another object is the row of the pair only. */
  lemma RowOfPair<T>(keys: map<T, Key>, o: T, z: T, x: T, y: T)
    requires OnePerKey(keys) && {o, z, x, y} <= keys.Keys && Opposite(keys[o], keys[z]) && Opposite(keys[x], keys[y])
    ensures Row(keys[o], keys[z]) == Row(keys[x], keys[y]) <==> (o == x && z == y) || (o == y && z == x)
  {
  }

  /** Which rows a successful add inserts. */
  lemma AddedRow<T>(g: Graph<T>, o: T, related: seq<T>, refused: nat -> bool, x: T, y: T)
    requires Knows(g, o, related) && OnePerKey(g.keys) && InsertRows(g.rows, g.keys, o, related, refused, 0).1
    requires x in g.keys && y in g.keys && Opposite(g.keys[x], g.keys[y])
    ensures var (row, rows') := (Row(g.keys[x], g.keys[y]), InsertRows(g.rows, g.keys, o, related, refused, 0).0);
            && (row in rows' <==> row in g.rows || (x == o && y in related) || (y == o && x in related))
            && (x == o && y in related ==> row !in g.rows && Count(related, y) == 1)
            && (y == o && x in related ==> row !in g.rows && Count(related, x) == 1)
  {
    var row := Row(g.keys[x], g.keys[y]);
    var rows' := InsertRows(g.rows, g.keys, o, related, refused, 0).0;
    InsertedRows(g.rows, g.keys, o, related, refused, 0);
    assert related[0..] == related;
    if row in rows' && row !in g.rows {
      var z :| z in related && row == Row(g.keys[o], g.keys[z]);
      RowOfPair(g.keys, o, z, x, y);
    }
  }

  lemma AddedPair<T>(g: Graph<T>, o: T, related: seq<T>, refused: nat -> bool, x: T, y: T)
    requires Knows(g, o, related) && Mirrored(g) && Add(g, o, related, refused).1
    requires x in g.keys && y in g.keys && Opposite(g.keys[x], g.keys[y])
    ensures Agrees(Add(g, o, related, refused).0, x, y)
  {
    AddedRow(g, o, related, refused, x, y);
    AddCounts(g, o, related, refused, x, y);
    NotRelatedToItself(g.keys, o, related);
    assert Agrees(g, x, y);
    Occurs(related, x);
    Occurs(related, y);
  }

  lemma AddMirrors<T>(g: Graph<T>, o: T, related: seq<T>, refused: nat -> bool)
    requires Knows(g, o, related) && Mirrored(g) && Add(g, o, related, refused).1
    ensures Mirrored(Add(g, o, related, refused).0)
  {
    var g' := Add(g, o, related, refused).0;
    forall x, y | x in g'.keys && y in g'.keys && Opposite(g'.keys[x], g'.keys[y]) ensures Agrees(g', x, y) {
      AddedPair(g, o, related, refused, x, y);
    }
    forall x | x in g'.lists ensures forall y | y in g'.lists[x] :: y in g'.lists && Opposite(g'.keys[x], g'.keys[y]) {
      forall y | y in g'.lists[x] ensures y in g'.lists && Opposite(g'.keys[x], g'.keys[y]) {
        AddCounts(g, o, related, refused, x, y);
        Occurs(g'.lists[x], y);
        Occurs(g.lists[x], y);
        Occurs(related, x);
        Occurs(related, y);
      }
    }
  }

  lemma NewRowBreaks<T>(g: Graph<T>, g': Graph<T>, o: T, z: T)
    requires Mirrored(g) && g'.keys == g.keys && g'.lists == g.lists && o in g.keys && z in g.keys
    requires Opposite(g.keys[o], g.keys[z]) && Row(g.keys[o], g.keys[z]) in g'.rows - g.rows
    ensures !Mirrored(g')
  {
    assert Agrees(g, o, z);
    assert !Agrees(g', o, z);
  }

  /** The insert of the k-th pair can go through on its own. */
  predicate Open<T(==)>(rows: set<(string, string)>, keys: map<T, Key>, o: T, related: seq<T>, refused: nat -> bool,
      k: nat)
    requires Joinable(keys, o, related) && k < |related|
  {
    !refused(k) && Row(keys[o], keys[related[k]]) !in rows
  }

  /** From the i-th on, no pair is refused, in the table already, or given twice. */
  predicate Insertable<T(==)>(rows: set<(string, string)>, keys: map<T, Key>, o: T, related: seq<T>,
                              refused: nat -> bool, i: nat)
    requires Joinable(keys, o, related)
  {
    && (forall k | i <= k < |related| :: Open(rows, keys, o, related, refused, k))
    && (forall j, k | i <= j < k < |related| :: related[j] != related[k])
  }

  lemma SameRowSameObject<T>(keys: map<T, Key>, o: T, x: T, y: T)
    requires OnePerKey(keys) && {o, x, y} <= keys.Keys && Opposite(keys[o], keys[x]) && Opposite(keys[o], keys[y])
    ensures Row(keys[o], keys[x]) == Row(keys[o], keys[y]) <==> x == y
  {
  }

  /** One more row in the table stands in the way of that pair only. */
  lemma OneMoreRow<T>(rows: set<(string, string)>, keys: map<T, Key>, o: T, related: seq<T>, refused: nat -> bool,
      i: nat)
    requires Joinable(keys, o, related) && OnePerKey(keys) && i < |related| && Open(rows, keys, o, related, refused, i)
    ensures Insertable(rows, keys, o, related, refused, i)
       <==> Insertable(rows + {Row(keys[o], keys[related[i]])}, keys, o, related, refused, i + 1)
  {
    var next := rows + {Row(keys[o], keys[related[i]])};
    forall k | i < k < |related|
      ensures Open(next, keys, o, related, refused, k)
              <==> Open(rows, keys, o, related, refused, k) && related[k] != related[i]
    {
      SameRowSameObject(keys, o, related[i], related[k]);
    }
  }

  lemma {:induction false} InsertsAllExactly<T>(rows: set<(string, string)>, keys: map<T, Key>, o: T, related: seq<T>,
                                               refused: nat -> bool, i: nat)
    requires Joinable(keys, o, related) && OnePerKey(keys) && i <= |related|
    ensures InsertRows(rows, keys, o, related, refused, i).1 <==> Insertable(rows, keys, o, related, refused, i)
    decreases |related| - i
  {
    if i < |related| && Open(rows, keys, o, related, refused, i) {
      OneMoreRow(rows, keys, o, related, refused, i);
      InsertsAllExactly(rows + {Row(keys[o], keys[related[i]])}, keys, o, related, refused, i + 1);
    }
  }

  /** An add that cannot stop halfway: it is refused at its first pair, or every pair can be inserted. */
  predicate Whole<T(==)>(g: Graph<T>, o: T, related: seq<T>, refused: nat -> bool)
    requires Knows(g, o, related)
  {
    || (related != [] && !Open(g.rows, g.keys, o, related, refused, 0))
    || Insertable(g.rows, g.keys, o, related, refused, 0)
  }

  /** The lists still mirror the table after an add exactly when it cannot stop halfway. */
  lemma AddKeepsMirroredExactly<T>(g: Graph<T>, o: T, related: seq<T>, refused: nat -> bool)
    requires Knows(g, o, related) && Mirrored(g)
    ensures Mirrored(Add(g, o, related, refused).0) <==> Whole(g, o, related, refused)
  {
    InsertsAllExactly(g.rows, g.keys, o, related, refused, 0);
    if Insertable(g.rows, g.keys, o, related, refused, 0) {
      AddMirrors(g, o, related, refused);
    } else if !Open(g.rows, g.keys, o, related, refused, 0) {
      assert Add(g, o, related, refused).0 == g;
    } else {
      var row := Row(g.keys[o], g.keys[related[0]]);
      InsertedRows(g.rows + {row}, g.keys, o, related, refused, 1);
      NewRowBreaks(g, Add(g, o, related, refused).0, o, related[0]);
    }
  }

  /** One actor, two users, nobody related yet. */
  const APART: Graph<Who> := Graph(map[First := User("u"), Second := User("v"), Target := Actor("a")],
                                   map[First := [], Second := [], Target := []], {})

  lemma ApartIsMirrored()
    ensures Knows(APART, Target, [First, Second]) && Mirrored(APART)
  {
  }

  /** The second insert is refused: the first row stays in the table, and no list shows it. */
  lemma HalfAnAddBreaksTheMirror()
    ensures Mirrored(APART) && Knows(APART, Target, [First, Second])
    ensures !Mirrored(Add(APART, Target, [First, Second], k => k == 1).0)
  {
    ApartIsMirrored();
    var related, refused := [First, Second], (k: nat) => k == 1;
    assert related[0] == First && related[1] == Second;
    assert Open({}, APART.keys, Target, related, refused, 0);
    assert !Open({}, APART.keys, Target, related, refused, 1);
    AddKeepsMirroredExactly(APART, Target, related, refused);
  }

  // ---------- removing ----------

  lemma RemoveKeepsMirrored<T>(g: Graph<T>, o: T, related: seq<T>, refused: bool)
    requires Knows(g, o, related) && Mirrored(g)
    ensures Mirrored(Remove(g, o, related, refused).0)
  {
    if related != [] && !refused {
      var g' := Remove(g, o, related, refused).0;
      OnePerKeyTakesOwn(g.lists, g.keys, related, o);
      NotRelatedToItself(g.keys, o, related);
      forall x, y | x in g'.keys && y in g'.keys && Opposite(g'.keys[x], g'.keys[y]) ensures Agrees(g', x, y) {
        RemovedPair(g, o, related, x, y);
      }
      forall x | x in g'.lists
        ensures forall y | y in g'.lists[x] :: y in g'.lists && Opposite(g'.keys[x], g'.keys[y])
      {
        forall y | y in g'.lists[x] ensures y in g'.lists && Opposite(g'.keys[x], g'.keys[y]) {
          RemoveCounts(g, o, related, x, y);
          Occurs(g'.lists[x], y);
          Occurs(g.lists[x], y);
        }
      }
    }
  }

  lemma RemovedPair<T>(g: Graph<T>, o: T, related: seq<T>, x: T, y: T)
    requires Knows(g, o, related) && Mirrored(g) && related != [] && TakesOwn(g.lists, g.keys, related, o)
    requires x in g.keys && y in g.keys && Opposite(g.keys[x], g.keys[y])
    ensures Agrees(Remove(g, o, related, false).0, x, y)
  {
    var row := Row(g.keys[x], g.keys[y]);
    RemoveCounts(g, o, related, x, y);
    NotRelatedToItself(g.keys, o, related);
    assert Agrees(g, x, y);
    Occurs(related, x);
    Occurs(related, y);
    if row in RowsOf(g.keys, o, related) {
      var z :| z in related && row == Row(g.keys[o], g.keys[z]);
      RowOfPair(g.keys, o, z, x, y);
    }
  }

  // ---------- any sequence of calls ----------

  datatype Op<T> =
    | AddTo(o: T, related: seq<T>, refusals: nat -> bool)
    | RemoveFrom(o: T, related: seq<T>, refused: bool)

  function Perform<T(==)>(g: Graph<T>, op: Op<T>): (Graph<T>, bool)
    requires Knows(g, op.o, op.related)
  {
    match op
    case AddTo(o, related, refusals) => Add(g, o, related, refusals)
    case RemoveFrom(o, related, refused) => Remove(g, o, related, refused)
  }

  predicate AllKnown<T(==)>(g: Graph<T>, ops: seq<Op<T>>) {
    forall i | 0 <= i < |ops| :: Knows(g, ops[i].o, ops[i].related)
  }

  lemma PerformKeepsKeys<T>(g: Graph<T>, op: Op<T>)
    requires Knows(g, op.o, op.related)
    ensures Perform(g, op).0.lists.Keys == g.lists.Keys && Perform(g, op).0.keys == g.keys
  {
  }

  function PerformAll<T(==)>(g: Graph<T>, ops: seq<Op<T>>): Graph<T>
    requires AllKnown(g, ops)
    decreases |ops|
  {
    if ops == [] then g
    else
      PerformKeepsKeys(g, ops[0]);
      PerformAll(Perform(g, ops[0]).0, ops[1..])
  }

  /** No add of the sequence can stop halfway when its turn comes. */
  predicate WholeAdds<T(==)>(g: Graph<T>, ops: seq<Op<T>>)
    requires AllKnown(g, ops)
    decreases |ops|
  {
    ops == [] ||
    (PerformKeepsKeys(g, ops[0]);
     (ops[0].AddTo? ==> Whole(g, ops[0].o, ops[0].related, ops[0].refusals))
         && WholeAdds(Perform(g, ops[0]).0, ops[1..]))
  }

  /** Over any sequence of calls on either side, whichever fail: the two sides agree. */
  lemma {:induction false} CallsKeepTwoSided<T>(g: Graph<T>, ops: seq<Op<T>>)
    requires AllKnown(g, ops) && TwoSided(g.lists) && OnePerKey(g.keys)
    ensures TwoSided(PerformAll(g, ops).lists)
    decreases |ops|
  {
    if ops != [] {
      match ops[0] {
        case AddTo(o, related, refusals) => AddKeepsTwoSided(g, o, related, refusals);
        case RemoveFrom(o, related, refused) => RemoveKeepsTwoSided(g, o, related, refused);
      }
      PerformKeepsKeys(g, ops[0]);
      CallsKeepTwoSided(Perform(g, ops[0]).0, ops[1..]);
    }
  }

  lemma PerformKeepsMirrored<T>(g: Graph<T>, op: Op<T>)
    requires Knows(g, op.o, op.related) && Mirrored(g) && Loaded(g)
    requires op.AddTo? ==> Whole(g, op.o, op.related, op.refusals)
    ensures Mirrored(Perform(g, op).0) && Loaded(Perform(g, op).0)
  {
    match op {
      case AddTo(o, related, refusals) =>
        AddKeepsMirroredExactly(g, o, related, refusals);
        InsertedRows(g.rows, g.keys, o, related, refusals, 0);
      case RemoveFrom(o, related, refused) =>
        RemoveKeepsMirrored(g, o, related, refused);
    }
  }

  /** And as long as no add can stop halfway, the lists are exactly the rows of the table, without repetition. */
  lemma {:induction false} CallsKeepMirrored<T>(g: Graph<T>, ops: seq<Op<T>>)
    requires AllKnown(g, ops) && Mirrored(g) && Loaded(g) && WholeAdds(g, ops)
    ensures Mirrored(PerformAll(g, ops)) && Loaded(PerformAll(g, ops))
    decreases |ops|
  {
    if ops != [] {
      PerformKeepsMirrored(g, ops[0]);
      PerformKeepsKeys(g, ops[0]);
      CallsKeepMirrored(Perform(g, ops[0]).0, ops[1..]);
    }
  }
}

/** What AddActors, RemoveActors and SetActors leave in the join table and in the lists of module Relations: the
    flag, the rows and the lists, told from those before the call. */
module RelationRules {
  import opened Relations
  import opened JoinRows

  /** The pair of a name and an identifier that joins two objects. */
  predicate IsPair(x: Key, y: Key, p: (string, string)) {
    (x.User? && y.Actor? && p == (x.name, y.id)) || (y.User? && x.Actor? && p == (y.name, x.id))
  }

  lemma RowIsPair(x: Key, y: Key, p: (string, string))
    requires Opposite(x, y)
    ensures p == Row(x, y) <==> IsPair(x, y, p)
  {
  }

  /** The pair of o and one of the first n given objects. */
  predicate PairsWith<T(==)>(keys: map<T, Key>, o: T, related: seq<T>, n: nat, p: (string, string))
    requires Joinable(keys, o, related)
  {
    exists k | 0 <= k < |related| && k < n :: IsPair(keys[o], keys[related[k]], p)
  }

  // ---------- adding ----------

  /** The n-th insert is refused: by the database, or because its pair is in the table or came before it. */
  ghost predicate Stops<T>(g: Graph<T>, o: T, related: seq<T>, refused: nat -> bool, n: nat)
    requires Joinable(g.keys, o, related) && n < |related|
  {
    || refused(n)
    || exists p :: IsPair(g.keys[o], g.keys[related[n]], p) && (p in g.rows || PairsWith(g.keys, o, related, n, p))
  }

  /** The inserts in order, up to the first that is refused. */
  lemma {:induction false} InsertsExactly<T>(
    g: Graph<T>, rows: set<(string, string)>, o: T, related: seq<T>, refused: nat -> bool, i: nat) returns (n: nat)
    requires Joinable(g.keys, o, related) && i <= |related|
    requires forall p :: p in rows <==> p in g.rows || PairsWith(g.keys, o, related, i, p)
    ensures i <= n <= |related|
    ensures var (rows', ok) := InsertRows(rows, g.keys, o, related, refused, i);
            && (ok <==> n == |related|)
            && (forall p :: p in rows' <==> p in g.rows || PairsWith(g.keys, o, related, n, p))
    ensures forall k | i <= k < n :: !Stops(g, o, related, refused, k)
    ensures n < |related| ==> Stops(g, o, related, refused, n)
    decreases |related| - i
  {
    n := i;
    if i < |related| {
      var row := Row(g.keys[o], g.keys[related[i]]);
      forall p ensures p == row <==> IsPair(g.keys[o], g.keys[related[i]], p) {
        RowIsPair(g.keys[o], g.keys[related[i]], p);
      }
      if !refused(i) && row !in rows {
        OneMorePair(g.keys, o, related, i);
        n := InsertsExactly(g, rows + {row}, o, related, refused, i + 1);
      }
    }
  }

  lemma OneMorePair<T>(keys: map<T, Key>, o: T, related: seq<T>, i: nat)
    requires Joinable(keys, o, related) && i < |related|
    ensures forall p :: PairsWith(keys, o, related, i + 1, p)
                   <==> PairsWith(keys, o, related, i, p) || p == Row(keys[o], keys[related[i]])
  {
    forall p ensures PairsWith(keys, o, related, i + 1, p)
                <==> PairsWith(keys, o, related, i, p) || p == Row(keys[o], keys[related[i]]) {
      RowIsPair(keys[o], keys[related[i]], p);
    }
  }

  /** An add goes through exactly when none of its inserts is refused. Then all its pairs are in the table, and
      behind its list each object has what was added to it: o the given objects, each of them one o for each time
      it is given. An add that stops leaves the pairs before the one refused, and every list as it was. */
  lemma AddExactly<T>(g: Graph<T>, o: T, related: seq<T>, refused: nat -> bool) returns (n: nat)
    requires Knows(g, o, related)
    ensures n <= |related|
    ensures var (g', ok) := Add(g, o, related, refused);
            && (ok <==> n == |related|) && g'.keys == g.keys
            && (forall p :: p in g'.rows <==> p in g.rows || PairsWith(g.keys, o, related, n, p))
            && (!ok ==> g'.lists == g.lists)
            && (ok ==> g'.lists.Keys == g.lists.Keys && g'.lists[o] == g.lists[o] + related)
            && (ok ==> forall x | x in g.lists && x != o :: g'.lists[x] == g.lists[x] + Copies(o, Count(related, x)))
    ensures (forall k | 0 <= k < n :: !Stops(g, o, related, refused, k))
    ensures n < |related| ==> Stops(g, o, related, refused, n)
  {
    n := InsertsExactly(g, g.rows, o, related, refused, 0);
    var m := g.lists[o := g.lists[o] + related];
    forall x | x in g.lists ensures AppendTo(m, related, o)[x] == m[x] + Copies(o, Count(related, x)) {
      AppendedExactly(m, related, o, x);
    }
    NotRelatedToItself(g.keys, o, related);
    assert Copies(o, 0) == [];
  }

  function Copies<T>(o: T, n: nat): seq<T> {
    seq(n, _ => o)
  }

  lemma {:induction false} AppendedExactly<T>(lists: map<T, seq<T>>, related: seq<T>, o: T, x: T)
    requires (forall z | z in related :: z in lists) && x in lists
    ensures AppendTo(lists, related, o)[x] == lists[x] + Copies(o, Count(related, x))
  {
    if related == [] {
      assert Copies(o, 0) == [];
    } else {
      var n := |related| - 1;
      AppendedExactly(lists, related[..n], o, x);
      CountLast(related, x);
      var c := Count(related[..n], x);
      assert Copies(o, c + 1) == Copies(o, c) + [o];
      assert lists[x] + Copies(o, c) + [o] == lists[x] + (Copies(o, c) + [o]);
    }
  }

  // ---------- removing ----------

  /** A removal fails exactly when there is something to remove and the database refuses; it then changes nothing.
      Otherwise the table loses exactly the pairs of o and the given objects, and with one object for each key
      each list loses, of o and of the given objects, as many as were removed from it. */
  lemma RemoveExactly<T>(g: Graph<T>, o: T, related: seq<T>, refused: bool)
    requires Knows(g, o, related)
    ensures var (g', ok) := Remove(g, o, related, refused);
            && (ok <==> related == [] || !refused) && g'.keys == g.keys && g'.lists.Keys == g.lists.Keys
            && (!ok ==> g' == g)
            && (ok ==> forall p :: p in g'.rows <==> p in g.rows && !PairsWith(g.keys, o, related, |related|, p))
            && (ok ==> multiset(g'.lists[o]) == multiset(g.lists[o]) - multiset(related))
            && (ok && OnePerKey(g.keys) ==>
                  forall x | x in g.lists && x != o ::
                    multiset(g'.lists[x]) == multiset(g.lists[x]) - multiset(Copies(o, Count(related, x))))
  {
    if related != [] && !refused {
      var g' := Remove(g, o, related, refused).0;
      forall p ensures p in RowsOf(g.keys, o, related) <==> PairsWith(g.keys, o, related, |related|, p) {
        RowsArePairs(g.keys, o, related, p);
      }
      NotRelatedToItself(g.keys, o, related);
      assert o !in related;
      DropFromLeaves(g.lists, g.keys, related, g.keys[o], o);
      RemoveEachTakesThem(g.lists[o], related);
      if OnePerKey(g.keys) {
        OnePerKeyTakesOwn(g.lists, g.keys, related, o);
        forall x | x in g.lists && x != o
          ensures multiset(g'.lists[x]) == multiset(g.lists[x]) - multiset(Copies(o, Count(related, x)))
        {
          RemovedExactly(g, o, related, x);
        }
      }
    } else {
      assert multiset(g.lists[o]) - multiset([]) == multiset(g.lists[o]);
      forall x | x in g.lists ensures multiset(g.lists[x]) - multiset(Copies(o, Count([], x))) == multiset(g.lists[x]) {
        assert Copies(o, Count([], x)) == [];
      }
    }
  }

  lemma RowsArePairs<T>(keys: map<T, Key>, o: T, related: seq<T>, p: (string, string))
    requires Joinable(keys, o, related)
    ensures p in RowsOf(keys, o, related) <==> PairsWith(keys, o, related, |related|, p)
  {
    if p in RowsOf(keys, o, related) {
      var x :| x in related && Row(keys[o], keys[x]) == p;
      var k :| 0 <= k < |related| && related[k] == x;
      RowIsPair(keys[o], keys[related[k]], p);
    }
    if k :| 0 <= k < |related| && IsPair(keys[o], keys[related[k]], p) {
      RowIsPair(keys[o], keys[related[k]], p);
      assert related[k] in related;
    }
  }

  lemma {:induction false} CopiesCount<T>(o: T, n: nat, y: T)
    ensures multiset(Copies(o, n))[y] == if y == o then n else 0
  {
    if n > 0 {
      CopiesCount(o, n - 1, y);
      assert Copies(o, n) == Copies(o, n - 1) + [o];
    }
  }

  lemma LessCopies<T>(before: seq<T>, after: seq<T>, o: T, n: nat)
    requires forall y :: Count(after, y) == Minus(Count(before, y), if y == o then n else 0)
    ensures multiset(after) == multiset(before) - multiset(Copies(o, n))
  {
    forall y ensures multiset(after)[y] == (multiset(before) - multiset(Copies(o, n)))[y] {
      CopiesCount(o, n, y);
      assert Count(after, y) == Minus(Count(before, y), if y == o then n else 0);
    }
  }

  lemma RemovedExactly<T>(g: Graph<T>, o: T, related: seq<T>, x: T)
    requires Knows(g, o, related) && TakesOwn(g.lists, g.keys, related, o) && related != [] && x in g.lists && x != o
    ensures multiset(Remove(g, o, related, false).0.lists[x])
         == multiset(g.lists[x]) - multiset(Copies(o, Count(related, x)))
  {
    var after, before := Remove(g, o, related, false).0.lists[x], g.lists[x];
    forall y ensures Count(after, y) == Minus(Count(before, y), if y == o then Count(related, x) else 0) {
      RemoveCounts(g, o, related, x, y);
    }
    LessCopies(before, after, o, Count(related, x));
  }

  // ---------- replacing ----------

  /** A replacement whose delete is refused changes nothing. Otherwise no pair of o stays but those of the given
      objects that are inserted before one is refused, all of them when none is; no other pair comes or goes; and
      the list of o is the given one, or empty when it stops. */
  lemma ReplaceExactly<T>(g: Graph<T>, o: T, related: seq<T>, deleteRefused: bool, refused: nat -> bool)
      returns (n: nat)
    requires Knows(g, o, related)
    ensures n <= |related|
    ensures var (g', ok) := Replace(g, o, related, deleteRefused, refused);
            && (ok <==> !deleteRefused && n == |related|)
            && (deleteRefused ==> g' == g)
            && (!deleteRefused ==>
                  && (forall p :: p in g'.rows <==>
                        (p in g.rows && !IsOf(g.keys[o], p)) || PairsWith(g.keys, o, related, n, p))
                  && g'.lists[o] == if ok then related else [])
    ensures !deleteRefused ==> forall k | 0 <= k < n :: !refused(k)
    ensures !deleteRefused && n < |related| ==>
              refused(n) || exists k | 0 <= k < n :: g.keys[related[k]] == g.keys[related[n]]
  {
    n := |related|;
    if !deleteRefused {
      var e := Emptied(g, o, related);
      n := AddExactly(e, o, related, refused);
      forall p ensures p in e.rows <==> p in g.rows && !IsOf(g.keys[o], p) {
      }
      forall k | 0 <= k < n ensures !refused(k) {
        assert !Stops(e, o, related, refused, k);
      }
      if n < |related| && !refused(n) {
        StoppedByARepeat(e, o, related, refused, n);
      }
    }
  }

  /** The pairs of one object. */
  predicate IsOf(k: Key, p: (string, string)) {
    if k.User? then p.0 == k.name else p.1 == k.id
  }

  lemma StoppedByARepeat<T>(e: Graph<T>, o: T, related: seq<T>, refused: nat -> bool, n: nat)
    requires Joinable(e.keys, o, related) && n < |related| && Stops(e, o, related, refused, n) && !refused(n)
    requires forall p | p in e.rows :: !IsOf(e.keys[o], p)
    ensures exists k | 0 <= k < n :: e.keys[related[k]] == e.keys[related[n]]
  {
    var p :| IsPair(e.keys[o], e.keys[related[n]], p) && (p in e.rows || PairsWith(e.keys, o, related, n, p));
    assert IsOf(e.keys[o], p);
    var k :| 0 <= k < n && IsPair(e.keys[o], e.keys[related[k]], p);
    assert related[k] in related && related[n] in related;
  }
}

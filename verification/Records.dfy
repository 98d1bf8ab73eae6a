/** The objects behind module Relations, updated in place as the generated code does it. One class stands for
    both sides: internal/models/actors.go repeats internal/models/users.go with the names exchanged. */
module Records {
  import opened Sequences
  import opened Relations

  class JoinTable {
    var rows: set<(string, string)>

    constructor ()
      ensures rows == {}
    {
      rows := {};
    }

    /** Fails when the pair exists: the pair is the primary key. */
    method Insert(row: (string, string), refused: bool) returns (ok: bool)
      modifies this
      ensures ok <==> !refused && row !in old(rows)
      ensures rows == if ok then old(rows) + {row} else old(rows)
    {
      ok := !refused && row !in rows;
      if ok {
        rows := rows + {row};
      }
    }

    /** Deletes the rows of one key, all of them or those whose other key is listed. */
    method Delete(k: Key)
      modifies this
      ensures rows == RowsWithout(old(rows), k)
    {
      rows := RowsWithout(rows, k);
    }

    method DeletePairs(k: Key, others: seq<Key>)
      modifies this
      ensures rows == set r | r in old(rows) && !(HasKey(r, k) && exists y | y in others :: HasKey(r, y))
    {
      rows := set r | r in rows && !(HasKey(r, k) && exists y | y in others :: HasKey(r, y));
    }
  }

  /** A user or an actor: its primary key, and the objects it lists. A missing list counts as an empty one. */
  class Record {
    const key: Key
    var related: seq<Record>

    constructor (key: Key)
      ensures this.key == key && related == []
    {
      this.key := key;
      related := [];
    }

    method InsertAll(table: JoinTable, others: seq<Record>, refused: nat -> bool, ghost all: set<Record>)
      returns (ok: bool)
      requires Joinable(Keys(all), this, others)
      modifies table
      ensures (table.rows, ok) == InsertRows(old(table.rows), Keys(all), this, others, refused, 0)
    {
      var i := 0;
      while i < |others|
        invariant 0 <= i <= |others|
        invariant InsertRows(old(table.rows), Keys(all), this, others, refused, 0)
               == InsertRows(table.rows, Keys(all), this, others, refused, i)
      {
        var row := Row(key, others[i].key);
        ok := table.Insert(row, refused(i));
        if !ok {
          return;
        }
        i := i + 1;
      }
      ok := true;
    }

    method Append(others: seq<Record>, ghost all: set<Record>)
      requires this in all
      modifies this
      ensures Lists(all) == old(Lists(all))[this := old(related) + others]
    {
      related := related + others;
    }

    /** Appends this object to the list of each given one. */
    method GiveTo(others: seq<Record>, ghost all: set<Record>)
      requires forall x | x in others :: x in all
      modifies others
      ensures Lists(all) == AppendTo(old(Lists(all)), others, this)
    {
      var i := 0;
      while i < |others|
        invariant 0 <= i <= |others|
        invariant Lists(all) == AppendTo(old(Lists(all)), others[..i], this)
      {
        others[i].Append([this], all);
        assert others[..i + 1][..i] == others[..i];
        i := i + 1;
      }
      assert others[..i] == others;
    }

    /** AddActors and AddUsers. */
    method AddRelated(table: JoinTable, others: seq<Record>, refused: nat -> bool, ghost all: set<Record>)
      returns (ok: bool)
      requires Joinable(Keys(all), this, others)
      modifies table, this, others
      ensures (GraphOf(all, table), ok) == Add(old(GraphOf(all, table)), this, others, refused)
    {
      ok := InsertAll(table, others, refused, all);
      if ok {
        Append(others, all);
        GiveTo(others, all);
      }
    }

    /** Deletion in place: the last element moves into the hole, and the list is cut. */
    method TakeOut(i: nat, ghost all: set<Record>)
      requires this in all && i < |related|
      modifies this
      ensures |related| == |old(related)| - 1
      ensures forall k | 0 <= k < |related| ::
                related[k] == if k == i then old(related)[|related|] else old(related)[k]
      ensures Lists(all) == old(Lists(all))[this := SwapRemove(old(related), i)]
              && related == SwapRemove(old(related), i)
    {
      var ln := |related|;
      if ln > 1 && i < ln - 1 {
        related := related[i := related[ln - 1]];
      }
      related := related[..ln - 1];
      assert related == SwapRemove(old(related), i);
    }

    /** The position of the first object with the given key. */
    method Position(k: Key, ghost all: set<Record>) returns (i: nat)
      requires ListsOnly(all)
      ensures i == FindKey(related, Keys(all), k)
    {
      i := 0;
      while i < |related| && related[i].key != k
        invariant i <= |related|
        invariant FindKey(related, Keys(all), k) == i + FindKey(related[i..], Keys(all), k)
      {
        assert related[i..][1..] == related[i + 1..];
        i := i + 1;
      }
    }

    ghost predicate ListsOnly(all: set<Record>)
      reads this
    {
      this in all && forall x | x in related :: x in all
    }

    /** Takes out the first object with the given key. */
    method TakeKey(k: Key, ghost all: set<Record>)
      requires ListsOnly(all)
      modifies this
      ensures Lists(all) == old(Lists(all))[this := RemoveKey(old(related), Keys(all), k)]
      ensures ListsOnly(all)
    {
      var i := Position(k, all);
      if i < |related| {
        TakeOut(i, all);
      }
    }

    /** Takes out one occurrence of the object itself. */
    method TakeObject(x: Record, ghost all: set<Record>)
      requires this in all
      modifies this
      ensures Lists(all) == old(Lists(all))[this := RemoveFirst(old(related), x)]
    {
      var i := 0;
      while i < |related| && related[i] != x
        invariant 0 <= i <= |related| && x !in related[..i]
      {
        i := i + 1;
      }
      if i < |related| {
        FirstIndex(related, x, i);
        TakeOut(i, all);
      } else {
        assert related[..i] == related;
      }
    }

    /** removeActorsFromUsersSlice and removeUsersFromActorsSlice. */
    method TakeFrom(others: seq<Record>, ghost all: set<Record>)
      requires Joinable(Keys(all), this, others) && Closed(Lists(all))
      modifies others
      ensures Lists(all) == DropFrom(old(Lists(all)), Keys(all), others, key)
    {
      forall x | x in all ensures x.ListsOnly(all) {
        assert Lists(all)[x] == x.related;
      }
      var i := 0;
      while i < |others|
        invariant 0 <= i <= |others|
        invariant Lists(all) == DropFrom(old(Lists(all)), Keys(all), others[..i], key)
        invariant forall x | x in all :: x.ListsOnly(all)
      {
        assert others[i] in others && others[i] in all;
        others[i].TakeKey(key, all);
        assert others[..i + 1][..i] == others[..i];
        i := i + 1;
      }
      assert others[..i] == others;
    }

    /** The own list is searched by pointer. */
    method TakeEach(others: seq<Record>, ghost all: set<Record>)
      requires this in all
      modifies this
      ensures Lists(all) == old(Lists(all))[this := RemoveEach(old(related), others)]
    {
      var i := 0;
      while i < |others|
        invariant 0 <= i <= |others|
        invariant Lists(all) == old(Lists(all))[this := RemoveEach(old(related), others[..i])]
      {
        assert Lists(all)[this] == related;
        TakeObject(others[i], all);
        assert others[..i + 1][..i] == others[..i];
        i := i + 1;
      }
      assert others[..i] == others;
    }

    method DeleteAll(table: JoinTable, others: seq<Record>, ghost all: set<Record>)
      requires Joinable(Keys(all), this, others)
      modifies table
      ensures table.rows == old(table.rows) - RowsOf(Keys(all), this, others)
    {
      var values: seq<Key> := [];
      for j := 0 to |others|
        invariant |values| == j && forall i | 0 <= i < j :: values[i] == others[i].key
      {
        values := values + [others[j].key];
      }
      table.DeletePairs(key, values);
      DeletedRows(old(table.rows), Keys(all), this, others, values);
    }

    /** RemoveActors and RemoveUsers. */
    method RemoveRelated(table: JoinTable, others: seq<Record>, refused: bool, ghost all: set<Record>)
      returns (ok: bool)
      requires Joinable(Keys(all), this, others) && Closed(Lists(all))
      modifies table, this, others
      ensures (GraphOf(all, table), ok) == Remove(old(GraphOf(all, table)), this, others, refused)
    {
      if |others| == 0 {
        return true;
      }
      if refused {
        return false;
      }
      DeleteAll(table, others, all);
      TakeFrom(others, all);
      assert Lists(all)[this] == related;
      TakeEach(others, all);
      ok := true;
    }

    method Clear(ghost all: set<Record>)
      requires this in all
      modifies this
      ensures Lists(all) == old(Lists(all))[this := []]
    {
      related := [];
    }

    method Empty(table: JoinTable, others: seq<Record>, ghost all: set<Record>)
      requires Joinable(Keys(all), this, others) && Closed(Lists(all))
      modifies table, this, others
      ensures GraphOf(all, table) == Emptied(old(GraphOf(all, table)), this, others)
    {
      assert Keys(all)[this] == key;
      table.Delete(key);
      TakeFrom(others, all);
      Clear(all);
    }

    /** SetActors and SetUsers. */
    method SetRelated(table: JoinTable, others: seq<Record>, deleteRefused: bool, refused: nat -> bool,
        ghost all: set<Record>)
      returns (ok: bool)
      requires Joinable(Keys(all), this, others) && Closed(Lists(all))
      modifies table, this, others
      ensures (GraphOf(all, table), ok) == Replace(old(GraphOf(all, table)), this, others, deleteRefused, refused)
    {
      if deleteRefused {
        return false;
      }
      Empty(table, others, all);
      ok := AddRelated(table, others, refused, all);
    }
  }

  lemma DeletedRows(rows: set<(string, string)>, keys: map<Record, Key>, o: Record, others: seq<Record>,
      values: seq<Key>)
    requires Joinable(keys, o, others) && |values| == |others| && forall i | 0 <= i < |others| ::
             values[i] == keys[others[i]]
    ensures (set r | r in rows && !(HasKey(r, keys[o]) && exists y | y in values :: HasKey(r, y)))
         == rows - RowsOf(keys, o, others)
  {
    forall r | r in rows
      ensures r in RowsOf(keys, o, others) <==> HasKey(r, keys[o]) && exists y | y in values :: HasKey(r, y)
    {
      if r in RowsOf(keys, o, others) {
        var x :| x in others && r == Row(keys[o], keys[x]);
        assert keys[x] in values;
      } else if HasKey(r, keys[o]) {
        forall y | y in values ensures !HasKey(r, y) {
          var i :| 0 <= i < |values| && values[i] == y;
          assert Opposite(keys[o], keys[others[i]]);
          assert Row(keys[o], keys[others[i]]) in RowsOf(keys, o, others);
        }
      }
    }
  }

  lemma {:induction false} FirstIndex<T>(s: seq<T>, x: T, i: nat)
    requires i < |s| && s[i] == x && x !in s[..i]
    ensures x in s && IndexOf(s, x) == i
  {
    if i > 0 {
      assert s[0] == s[..i][0];
      assert s[1..][..i - 1] == s[..i][1..];
      FirstIndex(s[1..], x, i - 1);
    }
  }

  ghost function Keys(all: set<Record>): map<Record, Key> {
    map x | x in all :: x.key
  }

  ghost function Lists(all: set<Record>): map<Record, seq<Record>>
    reads all
  {
    map x | x in all :: x.related
  }

  ghost function GraphOf(all: set<Record>, table: JoinTable): Graph<Record>
    reads all, table
  {
    Graph(Keys(all), Lists(all), table.rows)
  }
}

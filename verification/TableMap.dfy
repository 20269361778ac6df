/** The event table as a finite map from ids to rows: what it refines. */
module TableMap {
  import opened ByteStrings
  import opened Events
  import opened Rows

  function ById(rows: seq<Event>): map<Bytes, Event>
  {
    if rows == [] then map[] else ById(rows[..|rows| - 1])[rows[|rows| - 1].sealed.id := rows[|rows| - 1]]
  }

  lemma HasIdLast(rows: seq<Event>, id: Bytes)
    requires rows != []
    ensures var n := |rows| - 1; HasId(rows, id) <==> HasId(rows[..n], id) || id == rows[n].sealed.id
  {
    var n := |rows| - 1;
    if HasId(rows[..n], id) {
      var i :| 0 <= i < n && rows[..n][i].sealed.id == id;
      assert rows[i].sealed.id == id;
    }
    if HasId(rows, id) && id != rows[n].sealed.id {
      var i :| 0 <= i < |rows| && rows[i].sealed.id == id;
      assert rows[..n][i].sealed.id == id;
    }
  }

  lemma ByIdLast(rows: seq<Event>)
    requires rows != []
    ensures var n := |rows| - 1; ById(rows) == ById(rows[..n])[rows[n].sealed.id := rows[n]]
  {
  }

  /** The map has exactly the ids of the rows, each with its row. */
  lemma {:induction false} ByIdHolds(rows: seq<Event>)
    requires DistinctIds(rows)
    ensures forall id :: id in ById(rows) <==> HasId(rows, id)
    ensures forall i :: 0 <= i < |rows| ==> rows[i].sealed.id in ById(rows) && ById(rows)[rows[i].sealed.id] == rows[i]
  {
    if rows != [] {
      hide HasId, ById;
      var n := |rows| - 1;
      ByIdHolds(rows[..n]);
      ByIdLast(rows);
      forall id
        ensures id in ById(rows) <==> HasId(rows, id)
      {
        HasIdLast(rows, id);
      }
      forall i | 0 <= i < |rows|
        ensures rows[i].sealed.id in ById(rows) && ById(rows)[rows[i].sealed.id] == rows[i]
      {
        if i < n {
          assert rows[..n][i] == rows[i] && rows[i].sealed.id != rows[n].sealed.id;
        }
      }
    }
  }

  /** A map with the ids and the rows of a table is the table's map. */
  lemma MapIsById(rows: seq<Event>, m: map<Bytes, Event>)
    requires DistinctIds(rows)
    requires forall id :: id in m <==> HasId(rows, id)
    requires forall i :: 0 <= i < |rows| ==> rows[i].sealed.id in m && m[rows[i].sealed.id] == rows[i]
    ensures m == ById(rows)
  {
    hide ById, DistinctIds;
    ByIdHolds(rows);
    forall id
      ensures id in m <==> id in ById(rows)
      ensures id in m ==> m[id] == ById(rows)[id]
    {
      if id in m {
        assert HasId(rows, id);
        var i :| 0 <= i < |rows| && rows[i].sealed.id == id;
      }
    }
  }

  lemma InsertHasIds(rows: seq<Event>, e: Event, id: Bytes)
    ensures HasId(InsertSorted(rows, e), id) <==> id == e.sealed.id || HasId(rows, id)
  {
    var p, out := Slot(rows, KeyOf(e)), InsertSorted(rows, e);
    assert out[p].sealed.id == e.sealed.id;
    if HasId(rows, id) {
      var j :| 0 <= j < |rows| && rows[j].sealed.id == id;
      assert out[if j < p then j else j + 1].sealed.id == id;
    }
  }

  /** Insert is insert-if-absent on the map. */
  lemma InsertRefinesMap(rows: seq<Event>, e: Event)
    requires Table(rows)
    ensures Table(InsertRow(rows, e))
    ensures ById(InsertRow(rows, e)) == if e.sealed.id in ById(rows) then ById(rows) else ById(rows)[e.sealed.id := e]
  {
    hide Slot, KeyLess, ById;
    ByIdHolds(rows);
    if !HasId(rows, e.sealed.id) {
      InsertKeepsTable(rows, e);
      var p, out, m := Slot(rows, KeyOf(e)), InsertSorted(rows, e), ById(rows)[e.sealed.id := e];
      forall i | 0 <= i < |out|
        ensures out[i].sealed.id in m && m[out[i].sealed.id] == out[i]
      {
        if i != p {
          assert out[i] == rows[if i < p then i else i - 1];
        }
      }
      forall id
        ensures id in m <==> HasId(out, id)
      {
        InsertHasIds(rows, e, id);
      }
      MapIsById(out, m);
    }
  }

  /** The entry of an id before and after its flags may have changed. */
  lemma ReflaggedEntry(a: seq<Event>, b: seq<Event>, x: Bytes) returns (i: nat)
    requires Table(a) && Table(b) && SameRowsButFlags(a, b) && x in ById(a)
    ensures i < |a| && a[i].sealed.id == x && b[i].sealed.id == x
    ensures x in ById(b) && ById(a)[x] == a[i] && ById(b)[x] == b[i]
  {
    hide KeyLess, ById;
    ByIdHolds(a);
    ByIdHolds(b);
    i :| 0 <= i < |a| && a[i].sealed.id == x;
    assert SameButFlags(a[i], b[i]);
  }

  lemma ReflagKeepsKeys(a: seq<Event>, b: seq<Event>)
    requires Table(a) && Table(b) && SameRowsButFlags(a, b)
    ensures ById(a).Keys == ById(b).Keys
  {
    hide KeyLess, ById, HasId;
    ByIdHolds(a);
    ByIdHolds(b);
    forall x
      ensures x in ById(b) <==> x in ById(a)
    {
      SameRowsKeepIds(a, b, x);
    }
  }

  /** Setting a hold rewrites one entry in place. */
  lemma HoldRefinesMap(rows: seq<Event>, id: Bytes, hold: bool)
    requires Table(rows)
    ensures var m, out := ById(rows), ById(SetHold(rows, id, hold));
            && out.Keys == m.Keys
            && forall x :: x in m ==> out[x] == if x == id then m[x].(legalHold := hold) else m[x]
  {
    hide Table, ById;
    var out := SetHold(rows, id, hold);
    SameRowsKeepTable(rows, out);
    ReflagKeepsKeys(rows, out);
    forall x | x in ById(rows)
      ensures ById(out)[x] == if x == id then ById(rows)[x].(legalHold := hold) else ById(rows)[x]
    {
      var i := ReflaggedEntry(rows, out, x);
    }
  }

  /** Marking rewrites exactly the entries at or below the key. */
  lemma MarkRefinesMap(rows: seq<Event>, k: Key)
    requires Table(rows)
    ensures var m, out := ById(rows), ById(MarkUpTo(rows, k));
            && out.Keys == m.Keys
            && forall x :: x in m ==> out[x] == if KeyAtMost(KeyOf(m[x]), k) then m[x].(anchored := true) else m[x]
  {
    hide Table, ById, KeyAtMost;
    var out := MarkUpTo(rows, k);
    SameRowsKeepTable(rows, out);
    ReflagKeepsKeys(rows, out);
    forall x | x in ById(rows)
      ensures ById(out)[x] == if KeyAtMost(KeyOf(ById(rows)[x]), k) then ById(rows)[x].(anchored := true) else ById(rows)[x]
    {
      var i := ReflaggedEntry(rows, out, x);
    }
  }

  /** Two tables with the same map are the same list: the order is determined. */
  lemma MapDeterminesTable(a: seq<Event>, b: seq<Event>)
    requires Table(a) && Table(b)
    ensures ById(a) == ById(b) <==> a == b
  {
    hide KeyLess, ById;
    if ById(a) == ById(b) {
      ByIdHolds(a);
      ByIdHolds(b);
      RowsOnce(a);
      RowsOnce(b);
      RowsOfMap(a, b);
      RowsOfMap(b, a);
      assert multiset(a) == multiset(b);
      SortedListingUnique(a, b);
    }
  }

  lemma RowsOfMap(a: seq<Event>, b: seq<Event>)
    requires Table(a) && Table(b) && ById(a) == ById(b)
    ensures forall e :: e in a ==> e in b
  {
    hide KeyLess, ById;
    ByIdHolds(a);
    ByIdHolds(b);
    forall e | e in a
      ensures e in b
    {
      var i :| 0 <= i < |a| && a[i] == e;
      assert HasId(b, e.sealed.id);
      var j :| 0 <= j < |b| && b[j].sealed.id == e.sealed.id;
      assert b[j] == ById(b)[e.sealed.id];
    }
  }

  lemma {:induction false} RowsOnce(a: seq<Event>)
    requires DistinctIds(a)
    ensures forall e :: multiset(a)[e] == if e in a then 1 else 0
  {
    if a != [] {
      var n := |a| - 1;
      RowsOnce(a[..n]);
      assert a == a[..n] + [a[n]];
      assert a[n] !in a[..n];
    }
  }
}

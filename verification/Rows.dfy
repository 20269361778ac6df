/** The event table as a value: the list of rows in (ts, id) order, and what each
    store operation does to it. The in-memory store is proved against these. */
module Rows {
  import opened ByteStrings
  import opened Events
  import opened Chain

  ghost predicate HasId(rows: seq<Event>, id: Bytes)
  {
    exists i :: 0 <= i < |rows| && rows[i].sealed.id == id
  }

  /** Every timestamp is non-zero, as envelope validation demands. */
  ghost predicate Stamped(rows: seq<Event>)
  {
    forall i :: 0 <= i < |rows| ==> rows[i].sealed.ts != ZERO_TIME
  }

  /** The invariant of the table. */
  ghost predicate Table(rows: seq<Event>)
  {
    Sorted(rows) && DistinctIds(rows)
  }

  /** Where a stable sort puts a row appended behind sorted rows: it moves left
      past every row it is strictly before. */
  function Slot(rows: seq<Event>, k: Key): (p: nat)
    ensures p <= |rows|
    ensures p > 0 ==> !KeyLess(k, KeyOf(rows[p - 1]))
    ensures forall i :: p <= i < |rows| ==> KeyLess(k, KeyOf(rows[i]))
  {
    if rows == [] || !KeyLess(k, KeyOf(rows[|rows| - 1])) then |rows| else Slot(rows[..|rows| - 1], k)
  }

  function InsertSorted(rows: seq<Event>, e: Event): seq<Event>
  {
    InsertAt(rows, e, Slot(rows, KeyOf(e)))
  }

  /** Idempotent insert: a known id changes nothing. */
  ghost function InsertRow(rows: seq<Event>, e: Event): seq<Event>
  {
    if HasId(rows, e.sealed.id) then rows else InsertSorted(rows, e)
  }

  /** A place for e among the rows: after all smaller keys, before all greater. */
  ghost predicate Fits(rows: seq<Event>, e: Event, p: nat)
  {
    && p <= |rows|
    && (forall i :: 0 <= i < p ==> Before(rows[i], e) && rows[i].sealed.id != e.sealed.id)
    && (forall i :: p <= i < |rows| ==> Before(e, rows[i]) && rows[i].sealed.id != e.sealed.id)
  }

  lemma SlotFits(rows: seq<Event>, e: Event)
    requires Table(rows) && !HasId(rows, e.sealed.id)
    ensures Fits(rows, e, Slot(rows, KeyOf(e)))
  {
    var p := Slot(rows, KeyOf(e));
    forall i | 0 <= i < |rows|
      ensures rows[i].sealed.id != e.sealed.id && (if i < p then Before(rows[i], e) else Before(e, rows[i]))
    {
      if i < p {
        KeyLessTotal(KeyOf(e), KeyOf(rows[p - 1]));
        if i + 1 < p {
          KeyLessTransitive(KeyOf(rows[i]), KeyOf(rows[p - 1]), KeyOf(e));
        }
      }
    }
  }

  function InsertAt(rows: seq<Event>, e: Event, p: nat): (out: seq<Event>)
    requires p <= |rows|
    ensures |out| == |rows| + 1 && out[p] == e
    ensures forall i :: 0 <= i < p ==> out[i] == rows[i]
    ensures forall i :: p < i < |out| ==> out[i] == rows[i - 1]
  {
    rows[..p] + [e] + rows[p..]
  }

  lemma InsertAtKeepsTable(rows: seq<Event>, e: Event, p: nat)
    requires Table(rows) && Fits(rows, e, p)
    ensures Table(InsertAt(rows, e, p))
  {
  }

  /** Insert keeps the table sorted, adds exactly the new row, and keeps the rest. */
  lemma InsertKeepsTable(rows: seq<Event>, e: Event)
    requires Table(rows) && !HasId(rows, e.sealed.id)
    ensures Table(InsertSorted(rows, e))
    ensures multiset(InsertSorted(rows, e)) == multiset(rows) + multiset{e}
  {
    SlotFits(rows, e);
    var p := Slot(rows, KeyOf(e));
    InsertAtKeepsTable(rows, e, p);
    InsertAtAdds(rows, e, p);
  }

  lemma InsertAtAdds(rows: seq<Event>, e: Event, p: nat)
    requires p <= |rows|
    ensures multiset(InsertAt(rows, e, p)) == multiset(rows) + multiset{e}
  {
    var a, b := rows[..p], rows[p..];
    assert rows == a + b;
    assert multiset(a + [e] + b) == multiset(a) + multiset{e} + multiset(b);
  }

  /** A row that is after all others is appended. */
  lemma InsertInOrder(rows: seq<Event>, e: Event)
    requires rows == [] || Before(rows[|rows| - 1], e)
    ensures InsertSorted(rows, e) == rows + [e]
  {
    if rows != [] {
      KeyLessAsymmetric(KeyOf(rows[|rows| - 1]), KeyOf(e));
    }
  }

  /** A sorted table is determined by the set of its rows, so a table and the
      id-keyed map of its rows determine each other. */
  lemma {:induction false} SortedListingUnique(a: seq<Event>, b: seq<Event>)
    requires Sorted(a) && Sorted(b) && multiset(a) == multiset(b)
    ensures a == b
    decreases |a|
  {
    hide Before, Sorted;
    SameLength(a, b);
    if a != [] {
      assert a[0] in multiset(b) && b[0] in multiset(a);
      SameFirst(a, b);
      SameTails(a, b);
      SortedTail(a);
      SortedTail(b);
      SortedListingUnique(a[1..], b[1..]);
      assert a == [a[0]] + a[1..] && b == [b[0]] + b[1..];
    }
  }

  lemma SameLength(a: seq<Event>, b: seq<Event>)
    requires multiset(a) == multiset(b)
    ensures |a| == |b|
  {
    assert |multiset(a)| == |a| && |multiset(b)| == |b|;
  }

  lemma SameTails(a: seq<Event>, b: seq<Event>)
    requires a != [] && b != [] && a[0] == b[0] && multiset(a) == multiset(b)
    ensures multiset(a[1..]) == multiset(b[1..])
  {
    MultisetTail(a);
    MultisetTail(b);
  }

  lemma MultisetTail(es: seq<Event>)
    requires es != []
    ensures multiset(es[1..]) == multiset(es) - multiset{es[0]}
  {
    assert es == [es[0]] + es[1..];
  }

  lemma SortedTail(es: seq<Event>)
    requires Sorted(es) && es != []
    ensures Sorted(es[1..])
  {
    hide Before;
    assert forall i, j :: 0 <= i < j < |es| - 1 ==> es[1..][i] == es[i + 1] && es[1..][j] == es[j + 1];
  }

  lemma SameFirst(a: seq<Event>, b: seq<Event>)
    requires Sorted(a) && Sorted(b) && a != [] && b != [] && a[0] in b && b[0] in a
    ensures a[0] == b[0]
  {
    var i :| 0 <= i < |b| && b[i] == a[0];
    var j :| 0 <= j < |a| && a[j] == b[0];
    if i > 0 && j > 0 {
      assert Before(b[0], b[i]) && Before(a[0], a[j]);
      KeyLessAsymmetric(KeyOf(b[0]), KeyOf(a[0]));
    }
  }

  // ---- the chain head ----

  function Head(rows: seq<Event>): Option<Event>
  {
    if rows == [] then None else Some(rows[|rows| - 1])
  }

  /** The chain head is the row with the greatest key, which need not be the last
      one to arrive. */
  lemma HeadIsMaximum(rows: seq<Event>)
    requires Sorted(rows)
    ensures rows == [] <==> Head(rows) == None
    ensures rows != [] ==> Head(rows).value in rows
    ensures forall i :: 0 <= i < |rows| ==> KeyAtMost(KeyOf(rows[i]), KeyOf(Head(rows).value))
  {
  }

  // ---- the two flag mutators ----

  function SetHold(rows: seq<Event>, id: Bytes, hold: bool): (out: seq<Event>)
    ensures SameRowsButFlags(rows, out)
    ensures forall i :: 0 <= i < |rows| ==>
              out[i] == if rows[i].sealed.id == id then rows[i].(legalHold := hold) else rows[i]
  {
    if rows == [] then []
    else
      var e := rows[0];
      [if e.sealed.id == id then e.(legalHold := hold) else e] + SetHold(rows[1..], id, hold)
  }

  function MarkUpTo(rows: seq<Event>, k: Key): (out: seq<Event>)
    ensures SameRowsButFlags(rows, out)
    ensures forall i :: 0 <= i < |rows| ==>
              out[i] == if KeyAtMost(KeyOf(rows[i]), k) then rows[i].(anchored := true) else rows[i]
  {
    if rows == [] then []
    else
      var e := rows[0];
      [if KeyAtMost(KeyOf(e), k) then e.(anchored := true) else e] + MarkUpTo(rows[1..], k)
  }

  function CountAnchored(rows: seq<Event>): nat
  {
    if rows == [] then 0 else (if rows[0].anchored then 1 else 0) + CountAnchored(rows[1..])
  }

  /** How many rows a mark up to k flags that were not flagged before. */
  function NewlyMarked(rows: seq<Event>, k: Key): nat
  {
    if rows == [] then 0
    else (if KeyAtMost(KeyOf(rows[0]), k) && !rows[0].anchored then 1 else 0) + NewlyMarked(rows[1..], k)
  }

  /** Marking adds exactly the newly flagged rows to the anchored ones. */
  lemma {:induction false} MarkingCounts(rows: seq<Event>, k: Key)
    ensures CountAnchored(MarkUpTo(rows, k)) == CountAnchored(rows) + NewlyMarked(rows, k)
  {
    if rows != [] {
      hide KeyAtMost;
      MarkingCounts(rows[1..], k);
      assert MarkUpTo(rows, k)[1..] == MarkUpTo(rows[1..], k);
    }
  }

  lemma {:induction false} CountAnchoredConcat(a: seq<Event>, b: seq<Event>)
    ensures CountAnchored(a + b) == CountAnchored(a) + CountAnchored(b)
  {
    if a == [] {
      assert a + b == b;
    } else {
      CountAnchoredConcat(a[1..], b);
      assert (a + b)[1..] == a[1..] + b;
    }
  }

  lemma CountAnchoredInsert(rows: seq<Event>, e: Event)
    ensures CountAnchored(InsertSorted(rows, e)) == CountAnchored(rows) + if e.anchored then 1 else 0
  {
    var p := Slot(rows, KeyOf(e));
    CountAnchoredConcat(rows[..p] + [e], rows[p..]);
    CountAnchoredConcat(rows[..p], [e]);
    CountAnchoredConcat(rows[..p], rows[p..]);
    assert rows[..p] + rows[p..] == rows;
    assert CountAnchored([e]) == if e.anchored then 1 else 0;
  }

  lemma {:induction false} CountAnchoredHold(rows: seq<Event>, id: Bytes, hold: bool)
    ensures CountAnchored(SetHold(rows, id, hold)) == CountAnchored(rows)
  {
    if rows != [] {
      CountAnchoredHold(rows[1..], id, hold);
      assert SetHold(rows, id, hold)[1..] == SetHold(rows[1..], id, hold);
    }
  }

  lemma SameRowsKeepTable(a: seq<Event>, b: seq<Event>)
    requires SameRowsButFlags(a, b) && Table(a)
    ensures Table(b)
  {
  }

  lemma SameRowsKeepIds(a: seq<Event>, b: seq<Event>, id: Bytes)
    requires SameRowsButFlags(a, b)
    ensures HasId(a, id) <==> HasId(b, id)
  {
  }

  /** No flag mutator changes a hashed field, the order, or the chain verdict. */
  lemma FlagMutatorsKeepChain(hash: EventHash, a: seq<Event>, b: seq<Event>, id: Bytes, hold: bool, k: Key)
    requires b == SetHold(a, id, hold) || b == MarkUpTo(a, k)
    ensures SameRowsButFlags(a, b) && RootOf(a) == RootOf(b)
    ensures Intact(hash, a) <==> Intact(hash, b)
    ensures Table(a) <==> Table(b)
  {
    hide Intact, Table, KeyAtMost, SameRowsButFlags;
    SameRowsSymmetric(a, b);
    FlagsOutsideHash(hash, a, b);
    if Table(a) {
      SameRowsKeepTable(a, b);
    }
    if Table(b) {
      SameRowsKeepTable(b, a);
    }
  }

  lemma SameRowsSymmetric(a: seq<Event>, b: seq<Event>)
    requires SameRowsButFlags(a, b)
    ensures SameRowsButFlags(b, a)
  {
  }
}

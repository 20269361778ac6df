/** The in-memory event store: a map and a sorted list of pointers to the same
    event records, and the anchor store beside it. */
module MemStore {
  import opened ByteStrings
  import opened Events
  import opened Chain
  import opened Rows
  import opened Paging

  /** A heap-allocated event record: what both the map and the list point to. */
  class Cell {
    var val: Event

    constructor (e: Event)
      ensures val == e
    {
      val := e;
    }
  }

  /** The map sends exactly the ids of the rows, each to its own record. */
  ghost predicate Indexed(events: map<Bytes, Cell>, ordered: seq<Cell>, rows: seq<Event>)
    requires |ordered| == |rows|
  {
    && (forall i :: 0 <= i < |rows| ==> rows[i].sealed.id in events && events[rows[i].sealed.id] == ordered[i])
    && (forall id :: id in events ==> HasId(rows, id))
  }

  lemma MapKnowsIds(events: map<Bytes, Cell>, ordered: seq<Cell>, rows: seq<Event>, id: Bytes)
    requires |ordered| == |rows| && Indexed(events, ordered, rows)
    ensures id in events <==> HasId(rows, id)
    ensures id in events ==> exists i :: 0 <= i < |rows| && rows[i].sealed.id == id && ordered[i] == events[id]
  {
  }

  lemma IndexedInsert(events: map<Bytes, Cell>, ordered: seq<Cell>, rows: seq<Event>, c: Cell, e: Event, p: nat)
    requires |ordered| == |rows| && Indexed(events, ordered, rows) && p <= |rows|
    requires e.sealed.id !in events
    ensures Indexed(events[e.sealed.id := c], ordered[..p] + [c] + ordered[p..], InsertAt(rows, e, p))
  {
    hide InsertAt, HasId;
    var m, o, r := events[e.sealed.id := c], ordered[..p] + [c] + ordered[p..], InsertAt(rows, e, p);
    forall i | 0 <= i < |r|
      ensures r[i].sealed.id in m && m[r[i].sealed.id] == o[i]
    {
      if i != p {
        var j := if i < p then i else i - 1;
        assert r[i] == rows[j] && o[i] == ordered[j];
      }
    }
    forall id | id in m
      ensures HasId(r, id)
    {
      InsertAddsId(rows, e, p, id);
    }
  }

  lemma InsertAddsId(rows: seq<Event>, e: Event, p: nat, id: Bytes)
    requires p <= |rows|
    ensures HasId(InsertAt(rows, e, p), id) <==> id == e.sealed.id || HasId(rows, id)
  {
    var r := InsertAt(rows, e, p);
    assert r[p].sealed.id == e.sealed.id;
    if HasId(rows, id) {
      var j :| 0 <= j < |rows| && rows[j].sealed.id == id;
      assert r[if j < p then j else j + 1].sealed.id == id;
    }
  }

  lemma IndexedSame(events: map<Bytes, Cell>, ordered: seq<Cell>, a: seq<Event>, b: seq<Event>)
    requires |ordered| == |a| && Indexed(events, ordered, a) && SameRowsButFlags(a, b)
    ensures Indexed(events, ordered, b)
  {
  }

  /** Different positions of the list are different records. */
  lemma CellsDistinct(events: map<Bytes, Cell>, ordered: seq<Cell>, rows: seq<Event>)
    requires |ordered| == |rows| && (forall i :: 0 <= i < |rows| ==> ordered[i].val == rows[i]) && DistinctIds(rows)
    ensures forall i, j :: 0 <= i < j < |ordered| ==> ordered[i] != ordered[j]
  {
  }

  class EventStore {
    var events: map<Bytes, Cell>
    var ordered: seq<Cell>

    /** The table this store holds. */
    ghost var rows: seq<Event>

    /** The list is sorted, and list and map hold exactly the same records. */
    ghost predicate Valid()
      reads this, ordered
    {
      && |ordered| == |rows|
      && (forall i :: 0 <= i < |ordered| ==> ordered[i].val == rows[i])
      && Indexed(events, ordered, rows)
      && Table(rows)
    }

    constructor ()
      ensures Valid() && rows == [] && fresh(ordered)
    {
      events, ordered, rows := map[], [], [];
    }

    /** Idempotent on the event id. The record is appended and moved to its place,
        which is all a stable sort does to a list sorted before the append. */
    method Insert(e: Event) returns (inserted: bool)
      requires Valid()
      modifies this
      ensures Valid()
      ensures inserted <==> !HasId(old(rows), e.sealed.id)
      ensures rows == InsertRow(old(rows), e)
      ensures forall c :: c in ordered ==> c in old(ordered) || fresh(c)
    {
      hide Table, KeyLess, HasId, Indexed, InsertAt, Slot;
      MapKnowsIds(events, ordered, rows, e.sealed.id);
      if e.sealed.id in events {
        return false;
      }
      var c := new Cell(e);
      var i := FindSlot(KeyOf(e));
      InsertKeepsTable(rows, e);
      IndexedInsert(events, ordered, rows, c, e, i);
      events := events[e.sealed.id := c];
      Place(c, i);
      return true;
    }

    method Place(c: Cell, p: nat)
      requires |ordered| == |rows| && p <= |rows|
      requires forall i :: 0 <= i < |ordered| ==> ordered[i].val == rows[i]
      modifies `ordered, `rows
      ensures ordered == old(ordered)[..p] + [c] + old(ordered)[p..]
      ensures rows == InsertAt(old(rows), c.val, p)
      ensures |ordered| == |rows| && forall i :: 0 <= i < |ordered| ==> ordered[i].val == rows[i]
      ensures forall x :: x in ordered ==> x in old(ordered) || x == c
    {
      ghost var cells := ordered;
      ordered := ordered[..p] + [c] + ordered[p..];
      rows := InsertAt(rows, c.val, p);
      assert forall i :: 0 <= i < |ordered| ==> ordered[i] == if i < p then cells[i] else if i == p then c else cells[i - 1];
    }

    /** Where the stable sort moves a record appended at the end. */
    method FindSlot(k: Key) returns (i: nat)
      requires Valid()
      ensures i == Slot(rows, k)
    {
      hide Table, KeyLess, Indexed;
      i := |ordered|;
      assert rows[..|rows|] == rows;
      while i > 0 && KeyLess(k, KeyOf(ordered[i - 1].val))
        invariant i <= |ordered| && Slot(rows, k) == Slot(rows[..i], k)
      {
        i := i - 1;
        assert rows[..i + 1][..i] == rows[..i];
      }
    }

    /** A copy of the row with this id, if there is one. */
    method Get(id: Bytes) returns (r: Option<Event>)
      requires Valid()
      ensures r == None <==> !HasId(rows, id)
      ensures r.Some? ==> r.value in rows && r.value.sealed.id == id
    {
      hide Table, Indexed;
      MapKnowsIds(events, ordered, rows, id);
      if id !in events {
        return None;
      }
      return Some(events[id].val);
    }

    method List(f: Filter) returns (res: ListResult)
      requires Valid()
      ensures res == Page(FullPage, rows, f)
      ensures forall i :: 0 <= i < |res.events| ==>
                && res.events[i] in rows
                && (f.from != ZERO_TIME ==> f.from <= res.events[i].sealed.ts)
                && (f.to != ZERO_TIME ==> res.events[i].sealed.ts < f.to)
                && (f.service != [] ==> res.events[i].sealed.service == f.service)
                && (f.actor != [] ==> res.events[i].sealed.actor == f.actor)
                && (f.action != [] ==> res.events[i].sealed.action == f.action)
                && (f.targetType != [] ==> res.events[i].sealed.targetType == f.targetType)
                && (f.targetID != [] ==> res.events[i].sealed.targetID == f.targetID)
    {
      hide Table, Wanted, Indexed, Matches, KeyLess, Page;
      var limit := if f.limit <= 0 || f.limit > 1000 then 1000 else f.limit;
      var out: seq<Event> := [];
      for i := 0 to |ordered|
        invariant out == Select(rows[..i], f) && |out| < limit
      {
        var e := ordered[i].val;
        SelectNext(rows, f, i);
        if !Wanted(f, e) {
          continue;
        }
        out := out + [e];
        if |out| >= limit {
          PageFull(rows, f, i + 1);
          PageFits(rows, f);
          return ListResult(out, KeyOf(e));
        }
      }
      assert rows[..|ordered|] == rows;
      PageShort(rows, f);
      PageFits(rows, f);
      return ListResult(out, NO_CURSOR);
    }

    method ChainHead() returns (head: Option<Event>)
      requires Valid()
      ensures head == Head(rows)
    {
      hide Table, Indexed;
      if |ordered| == 0 {
        return None;
      }
      return Some(ordered[|ordered| - 1].val);
    }

    method SetLegalHold(id: Bytes, hold: bool) returns (found: bool)
      requires Valid()
      modifies `rows, ordered
      ensures Valid()
      ensures found <==> HasId(old(rows), id)
      ensures rows == SetHold(old(rows), id, hold)
    {
      hide Table, Indexed;
      MapKnowsIds(events, ordered, rows, id);
      CellsDistinct(events, ordered, rows) by { TableDistinct(rows); }
      ghost var was := rows;
      rows := SetHold(rows, id, hold);
      SameRowsKeepTable(was, rows);
      IndexedSame(events, ordered, was, rows);
      if id !in events {
        assert forall i :: 0 <= i < |was| ==> was[i].sealed.id != id;
        return false;
      }
      var c := events[id];
      HoldHitsOneCell(was, id) by { TableDistinct(was); }
      c.val := c.val.(legalHold := hold);
      return true;
    }

    /** Flags every row at or below the given key and counts the newly flagged. */
    method MarkAnchored(toTS: Time, toID: Bytes) returns (n: nat)
      requires Valid()
      modifies `rows, ordered
      ensures Valid()
      ensures rows == MarkUpTo(old(rows), Key(toTS, toID))
      ensures n == NewlyMarked(old(rows), Key(toTS, toID))
    {
      hide Table, Indexed, KeyAtMost, MarkUpTo, CountAnchored, NewlyMarked;
      MarkingCounts(rows, Key(toTS, toID));
      ghost var was, marked := rows, MarkUpTo(rows, Key(toTS, toID));
      CellsDistinct(events, ordered, rows) by { TableDistinct(rows); }
      n := 0;
      for i := 0 to |ordered|
        invariant rows == was
        invariant forall j :: 0 <= j < |ordered| ==> ordered[j].val == if j < i then marked[j] else was[j]
        invariant CountAnchored(marked[..i]) == CountAnchored(was[..i]) + n
      {
        CountAnchoredSnoc(marked, i);
        CountAnchoredSnoc(was, i);
        var newly := MarkCell(ordered[i], toTS, toID);
        n := if newly then n + 1 else n;
      }
      assert marked[..|ordered|] == marked && was[..|ordered|] == was;
      rows := marked;
      SameRowsKeepTable(was, rows);
      IndexedSame(events, ordered, was, rows);
    }

    static method MarkCell(c: Cell, toTS: Time, toID: Bytes) returns (changed: bool)
      modifies c
      ensures c.val == if KeyAtMost(KeyOf(old(c.val)), Key(toTS, toID)) then old(c.val).(anchored := true) else old(c.val)
      ensures changed <==> c.val.anchored && !old(c.val).anchored
    {
      hide KeyLess;
      var e := c.val;
      KeyAtMostIff(KeyOf(e), Key(toTS, toID));
      changed := false;
      if e.sealed.ts < toTS || (e.sealed.ts == toTS && !StrLess(toID, e.sealed.id)) {
        if !e.anchored {
          c.val := e.(anchored := true);
          changed := true;
        }
      }
    }
  }

  lemma PageShort(rows: seq<Event>, f: Filter)
    requires |Select(rows, f)| < EffectiveLimit(f.limit)
    ensures Page(FullPage, rows, f) == ListResult(Select(rows, f), NO_CURSOR)
  {
  }

  /** Every row of a page fits the filter. */
  lemma PageFits(rows: seq<Event>, f: Filter)
    ensures forall i :: 0 <= i < |Page(FullPage, rows, f).events| ==>
              var e := Page(FullPage, rows, f).events[i];
              && e in rows
              && (f.from != ZERO_TIME ==> f.from <= e.sealed.ts)
              && (f.to != ZERO_TIME ==> e.sealed.ts < f.to)
              && (f.service != [] ==> e.sealed.service == f.service)
              && (f.actor != [] ==> e.sealed.actor == f.actor)
              && (f.action != [] ==> e.sealed.action == f.action)
              && (f.targetType != [] ==> e.sealed.targetType == f.targetType)
              && (f.targetID != [] ==> e.sealed.targetID == f.targetID)
  {
    hide Select;
    forall i | 0 <= i < |Page(FullPage, rows, f).events|
      ensures Page(FullPage, rows, f).events[i] in Select(rows, f)
    {
    }
    forall e | e in Select(rows, f)
      ensures e in rows
      ensures (f.from != ZERO_TIME ==> f.from <= e.sealed.ts) && (f.to != ZERO_TIME ==> e.sealed.ts < f.to)
      ensures (f.service != [] ==> e.sealed.service == f.service) && (f.actor != [] ==> e.sealed.actor == f.actor)
      ensures (f.action != [] ==> e.sealed.action == f.action) && (f.targetType != [] ==> e.sealed.targetType == f.targetType)
      ensures f.targetID != [] ==> e.sealed.targetID == f.targetID
    {
      SelectedIff(rows, f, e);
    }
  }

  lemma TableDistinct(rows: seq<Event>)
    requires Table(rows)
    ensures DistinctIds(rows)
  {
  }

  lemma HoldHitsOneCell(rows: seq<Event>, id: Bytes)
    requires DistinctIds(rows)
    ensures forall i, j :: 0 <= i < j < |rows| && rows[i].sealed.id == id ==> rows[j].sealed.id != id
  {
  }

  lemma CountAnchoredSnoc(rows: seq<Event>, i: nat)
    requires i < |rows|
    ensures CountAnchored(rows[..i + 1]) == CountAnchored(rows[..i]) + if rows[i].anchored then 1 else 0
  {
    CountAnchoredConcat(rows[..i], [rows[i]]);
    assert rows[..i + 1] == rows[..i] + [rows[i]];
    assert CountAnchored([rows[i]]) == if rows[i].anchored then 1 else 0;
  }

  /** A loop over the first n rows may stop as soon as it has selected a full page. */
  lemma PageFull(rows: seq<Event>, f: Filter, n: nat)
    requires 0 < n <= |rows| && |Select(rows[..n], f)| == EffectiveLimit(f.limit) && Wanted(f, rows[n - 1])
    ensures Page(FullPage, rows, f) == ListResult(Select(rows[..n], f), KeyOf(rows[n - 1]))
  {
    SelectNext(rows, f, n - 1);
    SelectConcat(rows[..n], rows[n..], f);
    assert rows == rows[..n] + rows[n..];
  }

  lemma KeyAtMostIff(a: Key, b: Key)
    ensures KeyAtMost(a, b) <==> a.ts < b.ts || (a.ts == b.ts && !StrLess(b.id, a.id))
  {
    StrLessTotal(a.id, b.id);
    StrLessIrreflexive(a.id);
    if StrLess(a.id, b.id) && StrLess(b.id, a.id) {
      StrLessTransitive(a.id, b.id, a.id);
    }
  }
}

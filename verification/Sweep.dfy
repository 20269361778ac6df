/** The anchor job and the integrity sweep, alone and beside a running ingest. */
module Sweep {
  import opened ByteStrings
  import opened Events
  import opened Chain
  import opened Rows
  import opened Paging
  import M = MemStore

  // ---- anchors ----

  datatype Anchor = Anchor(
    id: Bytes, anchoredAt: Time, root: Bytes, lastID: Bytes, lastTS: Time, signature: Bytes, keyID: Bytes)

  predicate InAnchorWindow(a: Anchor, from: Time, to: Time)
  {
    (from == ZERO_TIME || from <= a.anchoredAt) && (to == ZERO_TIME || a.anchoredAt <= to)
  }

  /** The anchors of a window, in the order they were stored. */
  function WindowOf(anchors: seq<Anchor>, from: Time, to: Time): seq<Anchor>
  {
    if anchors == [] then []
    else
      var n := |anchors| - 1;
      WindowOf(anchors[..n], from, to) + if InAnchorWindow(anchors[n], from, to) then [anchors[n]] else []
  }

  lemma {:induction false} WindowOfExact(anchors: seq<Anchor>, from: Time, to: Time, a: Anchor)
    ensures multiset(WindowOf(anchors, from, to))[a] ==
            if (from != ZERO_TIME ==> from <= a.anchoredAt) && (to != ZERO_TIME ==> a.anchoredAt <= to) then multiset(anchors)[a] else 0
  {
    if anchors != [] {
      hide WindowOf;
      var n := |anchors| - 1;
      WindowOfExact(anchors[..n], from, to, a);
      CountInWindow(anchors, from, to, a);
      CountNext(anchors[..n], anchors[n], a);
      assert anchors == anchors[..n] + [anchors[n]];
    }
  }

  lemma CountInWindow(anchors: seq<Anchor>, from: Time, to: Time, a: Anchor)
    requires anchors != []
    ensures var n := |anchors| - 1;
            multiset(WindowOf(anchors, from, to))[a]
            == multiset(WindowOf(anchors[..n], from, to))[a] + if anchors[n] == a && InAnchorWindow(a, from, to) then 1 else 0
  {
    hide WindowOf, InAnchorWindow;
    var n := |anchors| - 1;
    WindowNext(anchors, from, to);
    CountNext(WindowOf(anchors[..n], from, to), anchors[n], a);
  }

  lemma WindowNext(anchors: seq<Anchor>, from: Time, to: Time)
    requires anchors != []
    ensures var n := |anchors| - 1;
            var window := WindowOf(anchors[..n], from, to);
            WindowOf(anchors, from, to) == if InAnchorWindow(anchors[n], from, to) then window + [anchors[n]] else window
  {
  }

  lemma CountNext(list: seq<Anchor>, x: Anchor, a: Anchor)
    ensures multiset(list + [x])[a] == multiset(list)[a] + if x == a then 1 else 0
  {
  }

  predicate InTimeOrder(list: seq<Anchor>)
  {
    forall i, j :: 0 <= i < j < |list| ==> list[i].anchoredAt <= list[j].anchoredAt
  }

  /** The anchors with this time, in list order. */
  function AtTime(list: seq<Anchor>, t: Time): seq<Anchor>
  {
    if list == [] then []
    else
      var n := |list| - 1;
      AtTime(list[..n], t) + if list[n].anchoredAt == t then [list[n]] else []
  }

  /** A stable sort by time: in time order, and for every time the same anchors in the
      same order as before. */
  ghost predicate StablySorted(list: seq<Anchor>, sorted: seq<Anchor>)
  {
    InTimeOrder(sorted) && forall t :: AtTime(sorted, t) == AtTime(list, t)
  }

  /** Where a stable sort by time puts one more anchor: behind all that are not later. */
  function InsertByTime(list: seq<Anchor>, a: Anchor): seq<Anchor>
  {
    var n := |list| - 1;
    if list == [] || list[n].anchoredAt <= a.anchoredAt then list + [a] else InsertByTime(list[..n], a) + [list[n]]
  }

  /** The anchors of a window, sorted by insertion. */
  function Listed(anchors: seq<Anchor>, from: Time, to: Time): seq<Anchor>
  {
    if anchors == [] then []
    else
      var n := |anchors| - 1;
      var front := Listed(anchors[..n], from, to);
      if InAnchorWindow(anchors[n], from, to) then InsertByTime(front, anchors[n]) else front
  }

  lemma {:induction false} InsertByTimeOrdered(list: seq<Anchor>, a: Anchor)
    requires InTimeOrder(list)
    ensures InTimeOrder(InsertByTime(list, a))
    ensures forall x :: x in InsertByTime(list, a) ==> x == a || x in list
  {
    var n := |list| - 1;
    if list != [] && list[n].anchoredAt > a.anchoredAt {
      InsertByTimeOrdered(list[..n], a);
      var front := InsertByTime(list[..n], a);
      forall i | 0 <= i < |front|
        ensures front[i].anchoredAt <= list[n].anchoredAt
      {
        assert front[i] == a || front[i] in list[..n];
      }
    }
  }

  lemma AtTimeSnoc(list: seq<Anchor>, a: Anchor, t: Time)
    ensures AtTime(list + [a], t) == AtTime(list, t) + if a.anchoredAt == t then [a] else []
  {
    assert (list + [a])[..|list|] == list;
  }

  lemma {:induction false} InsertByTimeStable(list: seq<Anchor>, a: Anchor, t: Time)
    ensures AtTime(InsertByTime(list, a), t) == AtTime(list, t) + if a.anchoredAt == t then [a] else []
  {
    hide AtTime;
    var n := |list| - 1;
    if list == [] || list[n].anchoredAt <= a.anchoredAt {
      AtTimeSnoc(list, a, t);
    } else {
      InsertByTimeStable(list[..n], a, t);
      AtTimeSnoc(InsertByTime(list[..n], a), list[n], t);
      AtTimeSnoc(list[..n], list[n], t);
      assert list == list[..n] + [list[n]];
    }
  }

  /** Listing is a stable sort of exactly the anchors of the window. */
  lemma {:induction false} ListedIsStable(anchors: seq<Anchor>, from: Time, to: Time)
    ensures StablySorted(WindowOf(anchors, from, to), Listed(anchors, from, to))
  {
    if anchors != [] {
      hide AtTime, InTimeOrder, InsertByTime;
      var n := |anchors| - 1;
      var a, window, list := anchors[n], WindowOf(anchors[..n], from, to), Listed(anchors[..n], from, to);
      ListedIsStable(anchors[..n], from, to);
      assert window + [] == window;
      if InAnchorWindow(a, from, to) {
        InsertByTimeOrdered(list, a);
        forall t
          ensures AtTime(InsertByTime(list, a), t) == AtTime(window + [a], t)
        {
          InsertByTimeStable(list, a, t);
          AtTimeSnoc(window, a, t);
        }
        assert WindowOf(anchors, from, to) == window + [a];
      }
    }
  }

  lemma {:induction false} LastOfTime(list: seq<Anchor>, t: Time)
    requires InTimeOrder(list)
    ensures list != [] && list[|list| - 1].anchoredAt < t ==> AtTime(list, t) == []
    ensures AtTime(list, t) != [] ==> list != []
  {
    if list != [] {
      LastOfTime(list[..|list| - 1], t);
    }
  }

  /** A list has one stable sort only, so the listing is fully determined. */
  lemma {:induction false} StableSortUnique(a: seq<Anchor>, b: seq<Anchor>)
    requires StablySorted(a, b) && InTimeOrder(a)
    ensures a == b
    decreases |a| + |b|
  {
    hide AtTime, InTimeOrder;
    if a != [] && b != [] {
      var m, n := |a| - 1, |b| - 1;
      var x, y := a[m], b[n];
      LastOfTime(a, y.anchoredAt);
      LastOfTime(b, x.anchoredAt);
      assert a == a[..m] + [x] && b == b[..n] + [y];
      AtTimeSnoc(a[..m], x, x.anchoredAt);
      AtTimeSnoc(b[..n], y, y.anchoredAt);
      assert x.anchoredAt == y.anchoredAt;
      SameLast(AtTime(a[..m], x.anchoredAt), x, AtTime(b[..n], x.anchoredAt), y);
      forall t
        ensures AtTime(a[..m], t) == AtTime(b[..n], t)
      {
        AtTimeSnoc(a[..m], x, t);
        AtTimeSnoc(b[..n], y, t);
        assert AtTime(a, t) == AtTime(b, t);
        if t == x.anchoredAt {
          SameLast(AtTime(a[..m], t), x, AtTime(b[..n], t), y);
        } else {
          assert AtTime(a[..m], t) + [] == AtTime(a[..m], t);
        }
      }
      FrontInTimeOrder(a);
      FrontInTimeOrder(b);
      StableSortUnique(a[..m], b[..n]);
    } else {
      NonEmptyHasTime(a);
      NonEmptyHasTime(b);
      AtTimeOfEmpty();
    }
  }

  lemma SameLast(p: seq<Anchor>, x: Anchor, q: seq<Anchor>, y: Anchor)
    requires p + [x] == q + [y]
    ensures p == q && x == y
  {
    assert (p + [x])[|p|] == x && (q + [y])[|q|] == y;
    assert p == (p + [x])[..|p|] && q == (q + [y])[..|q|];
  }

  lemma FrontInTimeOrder(list: seq<Anchor>)
    requires list != [] && InTimeOrder(list)
    ensures InTimeOrder(list[..|list| - 1])
  {
  }

  lemma NonEmptyHasTime(list: seq<Anchor>)
    ensures list != [] ==> AtTime(list, list[|list| - 1].anchoredAt) != []
  {
  }

  lemma AtTimeOfEmpty()
    ensures forall t :: AtTime([], t) == []
  {
  }

  /** An anchor fails the sweep if its last event is gone or has another hash. */
  ghost predicate Mismatch(rows: seq<Event>, a: Anchor)
  {
    !HasId(rows, a.lastID) || (|a.root| == 32 && !RootAt(rows, a.lastID, a.root))
  }

  ghost predicate RootAt(rows: seq<Event>, id: Bytes, root: Bytes)
  {
    exists i :: 0 <= i < |rows| && rows[i].sealed.id == id && rows[i].thisHash == root
  }

  ghost function Mismatches(rows: seq<Event>, list: seq<Anchor>): nat
  {
    if list == [] then 0
    else Mismatches(rows, list[..|list| - 1]) + if Mismatch(rows, list[|list| - 1]) then 1 else 0
  }

  lemma {:induction false} InsertByTimeCounts(rows: seq<Event>, list: seq<Anchor>, a: Anchor)
    ensures Mismatches(rows, InsertByTime(list, a)) == Mismatches(rows, list) + if Mismatch(rows, a) then 1 else 0
    ensures |InsertByTime(list, a)| == |list| + 1
  {
    var out := InsertByTime(list, a);
    if list == [] || list[|list| - 1].anchoredAt <= a.anchoredAt {
      assert out[..|out| - 1] == list;
    } else {
      InsertByTimeCounts(rows, list[..|list| - 1], a);
      assert out[..|out| - 1] == InsertByTime(list[..|list| - 1], a);
    }
  }

  /** Sorting neither loses an anchor of the window nor changes how many mismatch. */
  lemma {:induction false} ListedCounts(rows: seq<Event>, anchors: seq<Anchor>, from: Time, to: Time)
    ensures Mismatches(rows, Listed(anchors, from, to)) == Mismatches(rows, WindowOf(anchors, from, to))
    ensures |Listed(anchors, from, to)| == |WindowOf(anchors, from, to)|
  {
    if anchors != [] {
      hide InsertByTime, Mismatch, InAnchorWindow, HasId;
      var n := |anchors| - 1;
      var window := WindowOf(anchors[..n], from, to);
      ListedCounts(rows, anchors[..n], from, to);
      InsertByTimeCounts(rows, Listed(anchors[..n], from, to), anchors[n]);
      assert (window + [anchors[n]])[..|window|] == window && window + [] == window;
    }
  }

  /** What a clean result says: every anchor names a stored row, and a 32-byte root is
      this row's this_hash. */
  lemma {:induction false} NoMismatchIff(rows: seq<Event>, list: seq<Anchor>)
    ensures Mismatches(rows, list) == 0 <==>
            forall k :: 0 <= k < |list| ==>
              exists i :: 0 <= i < |rows| && rows[i].sealed.id == list[k].lastID && (|list[k].root| == 32 ==> rows[i].thisHash == list[k].root)
  {
    if list != [] {
      var n := |list| - 1;
      NoMismatchIff(rows, list[..n]);
      MatchIff(rows, list[n]);
      assert forall k :: 0 <= k < n ==> list[..n][k] == list[k];
    }
  }

  lemma MatchIff(rows: seq<Event>, a: Anchor)
    ensures !Mismatch(rows, a) <==>
            exists i :: 0 <= i < |rows| && rows[i].sealed.id == a.lastID && (|a.root| == 32 ==> rows[i].thisHash == a.root)
  {
  }

  lemma InWindowIff(anchors: seq<Anchor>, from: Time, to: Time, a: Anchor)
    ensures a in WindowOf(anchors, from, to) <==>
            a in anchors && (from != ZERO_TIME ==> from <= a.anchoredAt) && (to != ZERO_TIME ==> a.anchoredAt <= to)
  {
    hide WindowOf;
    WindowOfExact(anchors, from, to, a);
    assert a in WindowOf(anchors, from, to) <==> multiset(WindowOf(anchors, from, to))[a] > 0;
    assert a in anchors <==> multiset(anchors)[a] > 0;
  }

  lemma CleanWindowIff(rows: seq<Event>, anchors: seq<Anchor>, from: Time, to: Time)
    ensures Mismatches(rows, WindowOf(anchors, from, to)) == 0 <==>
            forall a :: a in anchors && (from != ZERO_TIME ==> from <= a.anchoredAt) && (to != ZERO_TIME ==> a.anchoredAt <= to) ==>
              exists i :: 0 <= i < |rows| && rows[i].sealed.id == a.lastID && (|a.root| == 32 ==> rows[i].thisHash == a.root)
  {
    hide Mismatches, WindowOf, Mismatch;
    var window := WindowOf(anchors, from, to);
    NoMismatchIff(rows, window);
    if Mismatches(rows, window) == 0 {
      forall a | a in anchors && (from != ZERO_TIME ==> from <= a.anchoredAt) && (to != ZERO_TIME ==> a.anchoredAt <= to)
        ensures exists i :: 0 <= i < |rows| && rows[i].sealed.id == a.lastID && (|a.root| == 32 ==> rows[i].thisHash == a.root)
      {
        InWindowIff(anchors, from, to, a);
        var k :| 0 <= k < |window| && window[k] == a;
      }
    } else {
      var k :| 0 <= k < |window| &&
        !exists i :: 0 <= i < |rows| && rows[i].sealed.id == window[k].lastID && (|window[k].root| == 32 ==> rows[i].thisHash == window[k].root);
      InWindowIff(anchors, from, to, window[k]);
    }
  }

  /** How many of these anchors name the event. */
  function Naming(list: seq<Anchor>, id: Bytes): nat
  {
    if list == [] then 0
    else Naming(list[..|list| - 1], id) + if list[|list| - 1].lastID == id then 1 else 0
  }

  /** The anchor names a stored row and holds its this_hash. */
  ghost predicate Vouches(rows: seq<Event>, a: Anchor)
  {
    exists i :: 0 <= i < |rows| && rows[i].sealed.id == a.lastID && |a.root| == 32 && rows[i].thisHash == a.root
  }

  /** A rewritten hash is detected: where every anchor vouched for its row, rewriting the
      this_hash of one row makes exactly the anchors that name this row mismatch. */
  lemma {:induction false} RewrittenHashCounted(rows: seq<Event>, k: nat, hash: Bytes, list: seq<Anchor>)
    requires DistinctIds(rows) && k < |rows| && hash != rows[k].thisHash
    requires forall n :: 0 <= n < |list| ==> Vouches(rows, list[n])
    ensures Mismatches(rows[k := rows[k].(thisHash := hash)], list) == Naming(list, rows[k].sealed.id)
  {
    if list != [] {
      hide Vouches, Mismatch;
      var n := |list| - 1;
      RewrittenHashCounted(rows, k, hash, list[..n]);
      RewrittenHashSeen(rows, k, hash, list[n]);
    }
  }

  lemma RewrittenHashSeen(rows: seq<Event>, k: nat, hash: Bytes, a: Anchor)
    requires DistinctIds(rows) && k < |rows| && hash != rows[k].thisHash && Vouches(rows, a)
    ensures Mismatch(rows[k := rows[k].(thisHash := hash)], a) <==> a.lastID == rows[k].sealed.id
  {
    var out := rows[k := rows[k].(thisHash := hash)];
    var i :| 0 <= i < |rows| && rows[i].sealed.id == a.lastID && rows[i].thisHash == a.root;
    assert out[i].sealed == rows[i].sealed;
    MatchIff(out, a);
    if i != k {
      assert out[i] == rows[i];
    }
  }

  /** A lost row is detected too: exactly the anchors that name it mismatch. */
  lemma {:induction false} LostRowCounted(rows: seq<Event>, k: nat, list: seq<Anchor>)
    requires DistinctIds(rows) && k < |rows|
    requires forall n :: 0 <= n < |list| ==> Vouches(rows, list[n])
    ensures Mismatches(rows[..k] + rows[k + 1..], list) == Naming(list, rows[k].sealed.id)
  {
    if list != [] {
      hide Vouches, Mismatch;
      var n := |list| - 1;
      LostRowCounted(rows, k, list[..n]);
      LostRowSeen(rows, k, list[n]);
    }
  }

  lemma LostRowSeen(rows: seq<Event>, k: nat, a: Anchor)
    requires DistinctIds(rows) && k < |rows| && Vouches(rows, a)
    ensures Mismatch(rows[..k] + rows[k + 1..], a) <==> a.lastID == rows[k].sealed.id
  {
    hide Mismatch;
    var out := rows[..k] + rows[k + 1..];
    var i :| 0 <= i < |rows| && rows[i].sealed.id == a.lastID && |a.root| == 32 && rows[i].thisHash == a.root;
    MatchIff(out, a);
    if i == k {
      forall j | 0 <= j < |out|
        ensures out[j].sealed.id != a.lastID
      {
        var n := if j < k then j else j + 1;
        assert out[j] == rows[n] && n != k;
      }
    } else {
      assert out[if i < k then i else i - 1] == rows[i];
    }
  }

  class AnchorStore {
    var anchors: seq<Anchor>

    constructor ()
      ensures anchors == []
    {
      anchors := [];
    }

    method InsertAnchor(a: Anchor, newID: Bytes, now: Time) returns (id: Bytes)
      modifies this
      ensures id == newID
      ensures anchors == old(anchors) + [a.(id := newID, anchoredAt := if a.anchoredAt == ZERO_TIME then now else a.anchoredAt)]
    {
      var c := a.(id := newID);
      if c.anchoredAt == ZERO_TIME {
        c := c.(anchoredAt := now);
      }
      anchors := anchors + [c];
      id := c.id;
    }

    method ListAnchors(from: Time, to: Time) returns (out: seq<Anchor>)
      ensures StablySorted(WindowOf(anchors, from, to), out)
      ensures out == Listed(anchors, from, to)
    {
      ListedIsStable(anchors, from, to);
      hide StablySorted, WindowOf, InsertByTime;
      out := [];
      for i := 0 to |anchors|
        invariant out == Listed(anchors[..i], from, to)
      {
        var a := anchors[i];
        assert anchors[..i + 1][..i] == anchors[..i];
        if from != ZERO_TIME && a.anchoredAt < from {
          continue;
        }
        if to != ZERO_TIME && a.anchoredAt > to {
          continue;
        }
        out := InsertByTime(out, a);
      }
      assert anchors[..|anchors|] == anchors;
    }
  }

  // ---- the anchor job ----

  type Signer = Bytes -> Option<(Bytes, Bytes)>

  datatype RunResult = EmptyChain | BadRoot | SignFailed | Anchored(a: Anchor)

  function AnchorFor(head: Event, sig: (Bytes, Bytes)): Anchor
  {
    Anchor([], ZERO_TIME, head.thisHash, head.sealed.id, head.sealed.ts, sig.0, sig.1)
  }

  /** What a run that signs does to the rows and the anchors. */
  function AnchorJobEffect(rows: seq<Event>, anchors: seq<Anchor>, sig: (Bytes, Bytes), id: Bytes, now: Time)
    : (seq<Event>, seq<Anchor>)
    requires rows != []
  {
    var head := rows[|rows| - 1];
    (MarkUpTo(rows, KeyOf(head)), anchors + [AnchorFor(head, sig).(id := id, anchoredAt := now)])
  }

  /** One undisturbed run: it anchors the greatest event and flags the whole table,
      or changes nothing. */
  method RunAnchorJob(events: M.EventStore, anchors: AnchorStore, sign: Signer, newID: Bytes, now: Time)
    returns (r: RunResult)
    requires events.Valid()
    modifies events`rows, events.ordered, anchors
    ensures events.Valid()
    ensures r.Anchored? <==> old(events.rows) != [] && |RootOf(old(events.rows))| == 32 && sign(RootOf(old(events.rows))).Some?
    ensures !r.Anchored? ==> events.rows == old(events.rows) && anchors.anchors == old(anchors.anchors)
    ensures r.Anchored? ==>
              && (events.rows, anchors.anchors)
                 == AnchorJobEffect(old(events.rows), old(anchors.anchors), sign(RootOf(old(events.rows))).value, newID, now)
              && anchors.anchors == old(anchors.anchors) + [r.a]
              && r.a.root == RootOf(old(events.rows)) && sign(r.a.root) == Some((r.a.signature, r.a.keyID))
              && Key(r.a.lastTS, r.a.lastID) == KeyOf(old(events.rows)[|old(events.rows)| - 1])
              && forall i :: 0 <= i < |events.rows| ==> events.rows[i].anchored
  {
    hide Table, M.Indexed, KeyLess, NewlyMarked;
    var head := events.ChainHead();
    if head == None {
      return EmptyChain;
    }
    var root := head.value.thisHash;
    if |root| != 32 {
      return BadRoot;
    }
    var sig := sign(root);
    if sig == None {
      return SignFailed;
    }
    ghost var rows := events.rows;
    HeadIsMaximum(rows) by { TableIsSorted(rows); }
    var id := anchors.InsertAnchor(AnchorFor(head.value, sig.value), newID, now);
    var n := events.MarkAnchored(head.value.sealed.ts, head.value.sealed.id);
    return Anchored(anchors.anchors[|anchors.anchors| - 1]);
  }

  lemma TableIsSorted(rows: seq<Event>)
    requires Table(rows)
    ensures Sorted(rows) && DistinctIds(rows)
  {
  }

  // ---- the drain loop over the store ----

  /** The page loop of the sweep and of exports. It ends, having read exactly the
      rows the filter selects. */
  method Collect(events: M.EventStore, f: Filter, limit: int) returns (all: seq<Event>)
    requires events.Valid() && Stamped(events.rows)
    ensures all == Select(events.rows, f)
  {
    hide Table, M.Indexed, Select, Stamped, Page, HasCursor;
    all := [];
    ghost var rows := events.rows;
    TableIsSorted(rows);
    var g := f;
    while true
      invariant events.Valid() && events.rows == rows
      invariant all + Select(rows, g) == Select(rows, f)
      decreases |Select(rows, g)|
    {
      PageFacts(FullPage, rows, g, limit);
      var res := events.List(g.(limit := limit));
      if |res.events| == 0 {
        break;
      }
      all := all + res.events;
      if res.next.ts == ZERO_TIME {
        break;
      }
      g := g.(cursor := res.next);
    }
  }

  // ---- the sweep ----

  datatype Report = Report(
    eventCount: nat, status: Status, firstBroken: Bytes, position: nat, root: Option<Bytes>,
    anchorCount: nat, mismatches: nat, signature: Option<(Bytes, Bytes)>)

  function WindowFilter(from: Time, to: Time): Filter { NO_FILTER.(from := from, to := to) }

  method CountMismatches(events: M.EventStore, listed: seq<Anchor>) returns (n: nat)
    requires events.Valid()
    ensures n == Mismatches(events.rows, listed)
  {
    hide Table, M.Indexed;
    n := 0;
    for i := 0 to |listed|
      invariant n == Mismatches(events.rows, listed[..i])
    {
      assert listed[..i + 1][..i] == listed[..i];
      var head := events.Get(listed[i].lastID);
      if head == None {
        n := n + 1;
        continue;
      }
      RootAtRow(events.rows, head.value, listed[i].root) by { TableIsSorted(events.rows); }
      if |listed[i].root| == 32 && listed[i].root != head.value.thisHash {
        n := n + 1;
      }
    }
    assert listed[..|listed|] == listed;
  }

  lemma RootAtRow(rows: seq<Event>, e: Event, root: Bytes)
    requires DistinctIds(rows) && e in rows
    ensures RootAt(rows, e.sealed.id, root) <==> e.thisHash == root
  {
  }

  /** The report on an undisturbed window: its size, the chain verdict with the first
      fault's id and 1-based position, the root, and the failing anchors. */
  method RunSweep(hash: EventHash, events: M.EventStore, anchors: AnchorStore, from: Time, to: Time, sign: Signer)
    returns (r: Report)
    requires events.Valid() && Stamped(events.rows)
    ensures var window := Select(events.rows, WindowFilter(from, to));
            && r.eventCount == |window|
            && (r.status == StatusOK <==> Intact(hash, window))
            && (Intact(hash, window) ==>
                  r.firstBroken == [] && r.position == 0 && r.root == if |RootOf(window)| == 32 then Some(RootOf(window)) else None)
            && (!Intact(hash, window) ==>
                  r.root == None && exists k ::
                    FirstFault(hash, window, k, r.status) && r.firstBroken == window[k].sealed.id && r.position == k + 1)
    ensures r.anchorCount == |WindowOf(anchors.anchors, from, to)|
    ensures r.mismatches == Mismatches(events.rows, WindowOf(anchors.anchors, from, to))
    ensures r.mismatches == 0 <==>
            forall a :: a in anchors.anchors && (from != ZERO_TIME ==> from <= a.anchoredAt) && (to != ZERO_TIME ==> a.anchoredAt <= to) ==>
              exists i :: 0 <= i < |events.rows| && events.rows[i].sealed.id == a.lastID && (|a.root| == 32 ==> events.rows[i].thisHash == a.root)
    ensures r.signature == if r.root.Some? then sign(r.root.value) else None
  {
    hide Table, M.Indexed, Select, Mismatches, Intact, Listed, WindowOf, StablySorted;
    var all := Collect(events, WindowFilter(from, to), 1000);
    var vres, root := VerifyChain(hash, all);
    var firstBroken, position := [], 0;
    if vres.status != StatusOK {
      firstBroken := vres.event.value.sealed.id;
      ghost var k :| FirstFault(hash, all, k, vres.status) && vres.event == Some(all[k]);
      WindowDistinct(events.rows, WindowFilter(from, to)) by { TableIsSorted(events.rows); }
      for i := 0 to |all|
        invariant forall j :: 0 <= j < i ==> all[j].sealed.id != firstBroken
      {
        if all[i].sealed.id == firstBroken {
          position := i + 1;
          break;
        }
      }
      assert position == k + 1;
    }
    var listed := anchors.ListAnchors(from, to);
    ListedCounts(events.rows, anchors.anchors, from, to);
    CleanWindowIff(events.rows, anchors.anchors, from, to);
    var n := CountMismatches(events, listed);
    var shown := if root.Some? && |root.value| == 32 then root else None;
    var sig := if shown.Some? then sign(shown.value) else None;
    r := Report(|all|, vres.status, firstBroken, position, shown, |listed|, n, sig);
  }

  lemma {:induction false} WindowDistinct(rows: seq<Event>, f: Filter)
    requires DistinctIds(rows)
    ensures DistinctIds(Select(rows, f))
    ensures forall e :: e in Select(rows, f) ==> e in rows
  {
    if rows != [] {
      var n := |rows| - 1;
      var s := Select(rows[..n], f);
      WindowDistinct(rows[..n], f);
      forall i | 0 <= i < |s|
        ensures s[i].sealed.id != rows[n].sealed.id
      {
        assert s[i] in rows[..n];
      }
    }
  }

  /** Which events a sweep walks: those of the half-open window, an unset end leaving it open. */
  lemma WindowHolds(rows: seq<Event>, from: Time, to: Time, e: Event)
    ensures e in Select(rows, WindowFilter(from, to)) <==>
            e in rows && (from != ZERO_TIME ==> from <= e.sealed.ts) && (to != ZERO_TIME ==> e.sealed.ts < to)
  {
    SelectedIff(rows, WindowFilter(from, to), e);
  }

  /** Every time window of an intact table verifies. */
  lemma WindowsOfIntactVerify(hash: EventHash, rows: seq<Event>, from: Time, to: Time)
    requires Sorted(rows) && Intact(hash, rows)
    ensures Intact(hash, Select(rows, WindowFilter(from, to)))
  {
    var lo, hi := WindowIsSlice(rows, WindowFilter(from, to));
    IntactSlice(hash, rows, lo, hi);
  }

  // ---- a sweep beside a running ingest ----

  /** What in-order ingest and flag changes do to the table between two pages. */
  ghost predicate Grows(a: seq<Event>, b: seq<Event>)
  {
    |a| <= |b| && SameRowsButFlags(a, b[..|a|])
  }

  /** The sweep's page loop when the k-th page is fetched from the k-th table: the
      rows read, and whether the loop has ended. */
  ghost function SweepOver(tables: seq<seq<Event>>, f: Filter): (seq<Event>, bool)
    decreases |tables|
  {
    if tables == [] then ([], false)
    else
      var p := Page(FullPage, tables[0], f);
      if p.events == [] || p.next.ts == ZERO_TIME then (p.events, true)
      else
        var rest := SweepOver(tables[1..], f.(cursor := p.next));
        (p.events + rest.0, rest.1)
  }

  ghost predicate GrowingTables(tables: seq<seq<Event>>, final: seq<Event>)
  {
    && (forall i :: 0 <= i < |tables| ==> Sorted(tables[i]) && Stamped(tables[i]) && Grows(tables[i], final))
    && (forall i, j :: 0 <= i < |tables| && j == i + 1 < |tables| ==> |tables[i]| <= |tables[j]|)
  }

  /** What an earlier table selects is, up to flags, the beginning of what a later
      one selects. */
  lemma SelectGrows(a: seq<Event>, b: seq<Event>, f: Filter)
    requires Grows(a, b)
    ensures |Select(a, f)| <= |Select(b, f)| && SameRowsButFlags(Select(a, f), Select(b, f)[..|Select(a, f)|])
  {
    hide Wanted;
    forall i | 0 <= i < |a|
      ensures Wanted(f, a[i]) <==> Wanted(f, b[..|a|][i])
    {
      assert SameButFlags(a[i], b[..|a|][i]);
      WantedIgnoresFlags(f, a[i], b[i]);
    }
    SelectAgree(a, f, b[..|a|], f);
    SelectConcat(b[..|a|], b[|a|..], f);
    assert b == b[..|a|] + b[|a|..];
  }

  lemma WantedIgnoresFlags(f: Filter, a: Event, b: Event)
    requires SameButFlags(a, b)
    ensures Wanted(f, a) <==> Wanted(f, b)
  {
  }

  lemma GrowsBetween(a: seq<Event>, b: seq<Event>, c: seq<Event>)
    requires Grows(a, c) && Grows(b, c) && |a| <= |b|
    ensures Grows(a, b)
  {
  }

  /** Every page extends a beginning of what the final table selects; once ended, the
      sweep has everything its first table selected. */
  lemma {:induction false} SweepReadsBeginning(tables: seq<seq<Event>>, final: seq<Event>, f: Filter)
    requires GrowingTables(tables, final) && Sorted(final) && Stamped(final)
    ensures var r, want := SweepOver(tables, f), Select(final, f);
            && |r.0| <= |want| && SameRowsButFlags(r.0, want[..|r.0|])
            && (r.1 ==> |r.0| >= |Select(tables[0], f)|)
    decreases |tables|
  {
    if tables != [] {
      hide Select, Page, Stamped, Wanted, Sorted, KeyLess, EffectiveLimit;
      var t, want := tables[0], Select(final, f);
      var s := Select(t, f);
      SelectGrows(t, final, f);
      PageFacts(FullPage, t, f, f.limit);
      assert f.(limit := f.limit) == f;
      var p := Page(FullPage, t, f);
      if p.events != [] && p.next.ts != ZERO_TIME {
        var n := EffectiveLimit(f.limit);
        var g := f.(cursor := p.next);
        var rest := SweepOver(tables[1..], g);
        assert SameButFlags(s[n - 1], want[..|s|][n - 1]) && KeyOf(s[n - 1]) == KeyOf(want[n - 1]);
        CursorResumes(final, f, n);
        assert Select(final, g) == want[n..];
        TailGrows(tables, final);
        SweepReadsBeginning(tables[1..], final, g);
        PagesJoin(s, want, n, rest.0);
        if rest.1 {
          GrowsBetween(t, tables[1], final);
          SelectGrows(t, tables[1], g);
        }
      } else {
        PagesJoin(s, want, |p.events|, []);
      }
    }
  }

  lemma TailGrows(tables: seq<seq<Event>>, final: seq<Event>)
    requires tables != [] && GrowingTables(tables, final)
    ensures GrowingTables(tables[1..], final)
    ensures |tables| > 1 ==> |tables[0]| <= |tables[1]| && Grows(tables[0], final) && Grows(tables[1], final)
  {
  }

  lemma PagesJoin(s: seq<Event>, want: seq<Event>, n: nat, rest: seq<Event>)
    requires n <= |s| <= |want| && SameRowsButFlags(s, want[..|s|])
    requires n + |rest| <= |want| && SameRowsButFlags(rest, want[n..][..|rest|])
    ensures var all := s[..n] + rest; SameRowsButFlags(all, want[..|all|])
  {
  }

  /** A sweep whose page fetches interleave with in-order ingest and flag changes, if
      it ends, has read a contiguous segment of the final table that includes every
      in-window event present when it began, and reports it as intact. */
  lemma InterleavedSweepSound(hash: EventHash, tables: seq<seq<Event>>, final: seq<Event>, from: Time, to: Time)
    returns (lo: nat, hi: nat)
    requires GrowingTables(tables, final) && Sorted(final) && Stamped(final) && Intact(hash, final)
    requires SweepOver(tables, WindowFilter(from, to)).1
    ensures lo <= hi <= |final| && SameRowsButFlags(SweepOver(tables, WindowFilter(from, to)).0, final[lo..hi])
    ensures |Select(tables[0], WindowFilter(from, to))| <= hi - lo
    ensures SameRowsButFlags(Select(tables[0], WindowFilter(from, to)), final[lo..lo + |Select(tables[0], WindowFilter(from, to))|])
    ensures Intact(hash, SweepOver(tables, WindowFilter(from, to)).0)
  {
    hide Select, Page, Stamped, Wanted;
    var f := WindowFilter(from, to);
    var read := SweepOver(tables, f).0;
    SweepReadsBeginning(tables, final, f);
    var top;
    lo, top := WindowIsSlice(final, f);
    hi := lo + |read|;
    assert final[lo..top][..|read|] == final[lo..hi];
    var first := Select(tables[0], f);
    SelectGrows(tables[0], final, f);
    assert final[lo..top][..|first|] == final[lo..lo + |first|];
    IntactSlice(hash, final, lo, hi);
    FlagsOutsideHash(hash, read, final[lo..hi]);
  }

  /** On a table that does not change, the interleaved sweep is the plain one. */
  lemma {:induction false} QuietSweepReadsAll(tables: seq<seq<Event>>, rows: seq<Event>, f: Filter)
    requires Sorted(rows) && Stamped(rows)
    requires |tables| > |Select(rows, f)| && forall i :: 0 <= i < |tables| ==> tables[i] == rows
    ensures SweepOver(tables, f) == (Select(rows, f), true)
    decreases |tables|
  {
    hide Select, Page, Stamped;
    PageFacts(FullPage, rows, f, f.limit);
    assert f.(limit := f.limit) == f;
    var p := Page(FullPage, rows, f);
    if p.events != [] && p.next.ts != ZERO_TIME {
      var s, n := Select(rows, f), EffectiveLimit(f.limit);
      QuietSweepReadsAll(tables[1..], rows, f.(cursor := p.next));
      assert s[..n] + s[n..] == s;
    }
  }
}

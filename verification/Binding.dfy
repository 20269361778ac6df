/** Which stored events the root of an anchor binds: the root is the chain head's hash,
    so it binds what the prev_hash walk from the head passes through. */
module Binding {
  import opened ByteStrings
  import opened Events
  import opened Chain
  import opened Rows
  import opened Ingest
  import opened Arrival
  import S = Sweep

  /** An intact chain of stored events that begins with e and ends with the chain head. */
  ghost predicate ChainToHead(hash: EventHash, rows: seq<Event>, chain: seq<Event>, e: Event)
  {
    && rows != [] && chain != [] && chain[0] == e && chain[|chain| - 1] == rows[|rows| - 1]
    && (forall i :: 0 <= i < |chain| ==> chain[i] in rows)
    && Intact(hash, chain)
  }

  ghost predicate Bound(hash: EventHash, rows: seq<Event>, e: Event)
  {
    exists chain :: ChainToHead(hash, rows, chain, e)
  }

  /** What being bound means: any intact chain with the same root that goes back as far
      holds this event, in every hashed field, at this place. */
  lemma RootFixesBound(hash: EventHash, rows: seq<Event>, chain: seq<Event>, e: Event, other: seq<Event>)
    requires ChainToHead(hash, rows, chain, e)
    requires Intact(hash, other) && RootOf(other) == RootOf(rows) && |other| >= |chain| && Faithful(hash, chain + other)
    ensures other[|other| - |chain|].sealed == e.sealed
  {
    RootBindsFromEnd(hash, chain, other, |chain| - 1);
  }

  ghost predicate GreatestOnArrival(log: seq<Event>, j: nat)
    requires j < |log|
  {
    forall i :: 0 <= i < j ==> Before(log[i], log[j])
  }

  lemma MaximumIsGreatest(log: seq<Event>, n: nat, m: nat)
    requires DistinctIds(log) && m < n <= |log| && MaximumOf(log, n, m)
    ensures GreatestOnArrival(log, m)
  {
    forall i | 0 <= i < m
      ensures Before(log[i], log[m])
    {
      assert KeyAtMost(KeyOf(log[i]), KeyOf(log[m])) && log[i].sealed.id != log[m].sealed.id;
    }
  }

  /** Before the n-th arrival, none came after the maximum m that was greatest. */
  lemma NoGreatestPastMaximum(log: seq<Event>, n: nat, m: nat, j: nat)
    requires m < n <= |log| && MaximumOf(log, n, m) && j < n && GreatestOnArrival(log, j)
    ensures j <= m
  {
    hide KeyLess;
    if m < j {
      assert Before(log[m], log[j]) && KeyAtMost(KeyOf(log[j]), KeyOf(log[m]));
      KeyLessAsymmetric(KeyOf(log[m]), KeyOf(log[j]));
    }
  }

  lemma Predecessor(hash: EventHash, st: Stores, k: nat) returns (m: nat)
    requires WellLogged(hash, st) && 0 < k < |st.log|
    ensures m < k && Linked(st.log[m], st.log[k]) && MaximumOf(st.log, k, m) && GreatestOnArrival(st.log, m)
  {
    hide Table, MaximumOf, GreatestOnArrival;
    assert PointsAtMaximum(st.log, k);
    m :| 0 <= m < k && Linked(st.log[m], st.log[k]) && MaximumOf(st.log, k, m);
    MaximumIsGreatest(st.log, k, m);
  }

  /** Walking back from an event that was greatest meets each earlier such event. */
  lemma {:induction false} WalkDown(hash: EventHash, st: Stores, h: nat, j: nat) returns (chain: seq<Event>)
    requires WellLogged(hash, st) && j <= h < |st.log|
    requires GreatestOnArrival(st.log, h) && GreatestOnArrival(st.log, j)
    ensures chain != [] && chain[0] == st.log[j] && chain[|chain| - 1] == st.log[h]
    ensures forall i :: 0 <= i < |chain| ==> chain[i] in st.log
    ensures Intact(hash, chain)
    decreases h
  {
    hide Table, Stamped, MaximumOf, GreatestOnArrival, PointsAtMaximum;
    if j == h {
      chain := [st.log[h]];
    } else {
      var m := Predecessor(hash, st, h);
      NoGreatestPastMaximum(st.log, h, m, j);
      var front := WalkDown(hash, st, m, j);
      chain := front + [st.log[h]];
      AppendIntact(hash, front, st.log[h]);
    }
  }

  lemma AppendIntact(hash: EventHash, chain: seq<Event>, e: Event)
    requires chain != [] && Intact(hash, chain) && Authentic(hash, e) && Linked(chain[|chain| - 1], e)
    ensures Intact(hash, chain + [e])
  {
    var out := chain + [e];
    forall i, j | 0 <= i < |out| && j == i + 1 < |out|
      ensures Linked(out[i], out[j])
    {
      assert j < |chain| ==> Linked(chain[i], chain[j]);
    }
  }

  /** Only events that were greatest on arrival are met on the way back. */
  lemma {:induction false} MetWasGreatest(hash: EventHash, st: Stores, chain: seq<Event>, e: Event, q: nat) returns (n: nat)
    requires WellLogged(hash, st) && Faithful(hash, st.log) && NoneHashesToZero(hash, st.log)
    requires ChainToHead(hash, st.rows, chain, e) && q < |chain|
    ensures n < |st.log| && st.log[n] == chain[q] && GreatestOnArrival(st.log, n)
    decreases |chain| - q
  {
    hide Table, Stamped, MaximumOf, GreatestOnArrival, Faithful;
    InLogIffInRows(hash, st, chain[q]);
    if q == |chain| - 1 {
      n := HeadIsGreatestArrival(hash, st);
      MaximumIsGreatest(st.log, |st.log|, n);
    } else {
      var k := MetWasGreatest(hash, st, chain, e, q + 1);
      assert Linked(chain[q], chain[q + 1]) && Authentic(hash, chain[q]);
      assert k > 0 by { assert PointsAtMaximum(st.log, k); }
      n := Predecessor(hash, st, k);
      LinkNames(hash, st, st.log[n], chain[q]);
    }
  }

  /** The root of the chain head binds an event if and only if the event was the greatest
      when it arrived: a late arrival is stored, but nothing points at it. */
  lemma BoundIffGreatest(hash: EventHash, st: Stores, j: nat)
    requires WellLogged(hash, st) && Faithful(hash, st.log) && NoneHashesToZero(hash, st.log) && j < |st.log|
    ensures Bound(hash, st.rows, st.log[j]) <==> GreatestOnArrival(st.log, j)
  {
    hide Table, Stamped, MaximumOf, GreatestOnArrival, Intact, LogSound, Faithful, NoneHashesToZero;
    if Bound(hash, st.rows, st.log[j]) {
      var chain :| ChainToHead(hash, st.rows, chain, st.log[j]);
      var n := MetWasGreatest(hash, st, chain, st.log[j], 0);
      SameArrival(hash, st, j, n);
    }
    if GreatestOnArrival(st.log, j) {
      var h := HeadIsGreatestArrival(hash, st);
      MaximumIsGreatest(st.log, |st.log|, h) by { LoggedDistinct(hash, st); }
      NoGreatestPastMaximum(st.log, |st.log|, h, j);
      var chain := WalkDown(hash, st, h, j);
      forall i | 0 <= i < |chain|
        ensures chain[i] in st.rows
      {
        InLogIffInRows(hash, st, chain[i]);
      }
      assert ChainToHead(hash, st.rows, chain, st.log[j]);
    }
  }

  lemma LoggedDistinct(hash: EventHash, st: Stores)
    requires WellLogged(hash, st)
    ensures DistinctIds(st.log)
  {
  }

  lemma SameArrival(hash: EventHash, st: Stores, i: nat, j: nat)
    requires WellLogged(hash, st) && i < |st.log| && j < |st.log| && st.log[i] == st.log[j]
    ensures i == j
  {
    LoggedDistinct(hash, st);
    assert DistinctIds(st.log);
  }

  /** An anchor run flags every stored event, yet its root binds all of them if and only
      if events were accepted in (ts, id) order; otherwise a late one is flagged unbound. */
  lemma FlaggedAreBoundIffInOrder(cfg: Config, msgs: seq<Message>, sig: (Bytes, Bytes), id: Bytes, now: Time)
    requires Faithful(cfg.hash, Run(cfg, msgs).log) && NoneHashesToZero(cfg.hash, Run(cfg, msgs).log)
    requires Run(cfg, msgs).rows != []
    ensures var rows := Run(cfg, msgs).rows;
            var (marked, anchors) := S.AnchorJobEffect(rows, [], sig, id, now);
            && anchors[0].root == RootOf(rows)
            && |marked| == |rows| && (forall i :: 0 <= i < |rows| ==> marked[i].anchored)
            && ((forall i :: 0 <= i < |rows| ==> Bound(cfg.hash, rows, rows[i])) <==> MessagesInOrder(cfg, msgs))
  {
    hide Run, Intact, KeyLess, MessagesInOrder, Faithful, NoneHashesToZero, Bound, LogSound;
    var st := Run(cfg, msgs);
    RunIsLogged(cfg, msgs);
    HeadIsMaximum(st.rows) by { TableSorted(st.rows); }
    VerifiesIffMessagesInOrder(cfg, msgs);
    ChainVerifiesIffInOrder(cfg, msgs);
    AllBoundIffSorted(cfg.hash, st);
  }

  lemma AllBoundIffSorted(hash: EventHash, st: Stores)
    requires WellLogged(hash, st) && Faithful(hash, st.log) && NoneHashesToZero(hash, st.log)
    ensures (forall i :: 0 <= i < |st.rows| ==> Bound(hash, st.rows, st.rows[i])) <==> Sorted(st.log)
  {
    hide WellLogged, KeyLess, Faithful, NoneHashesToZero, Bound;
    var log, rows := st.log, st.rows;
    assert multiset(rows) == multiset(log) by { SameRowsAndLog(hash, st); }
    forall j | 0 <= j < |log|
      ensures Bound(hash, rows, log[j]) <==> GreatestOnArrival(log, j)
      ensures log[j] in rows
    {
      BoundIffGreatest(hash, st, j);
      InLogIffInRows(hash, st, log[j]);
    }
    if Sorted(log) {
      forall i | 0 <= i < |rows|
        ensures Bound(hash, rows, rows[i])
      {
        InLogIffInRows(hash, st, rows[i]);
        var j :| 0 <= j < |log| && log[j] == rows[i];
        assert GreatestOnArrival(log, j);
      }
    }
    if forall i :: 0 <= i < |rows| ==> Bound(hash, rows, rows[i]) {
      forall i, j | 0 <= i < j < |log|
        ensures Before(log[i], log[j])
      {
        assert log[j] in rows;
        assert GreatestOnArrival(log, j);
      }
    }
  }

  lemma SameRowsAndLog(hash: EventHash, st: Stores)
    requires WellLogged(hash, st)
    ensures multiset(st.rows) == multiset(st.log)
  {
  }
}

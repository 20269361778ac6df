/** A sweep beside a running service whose ingest calls come one after another and
    in (ts, id) order, while holds are set and anchor marks made. */
module Live {
  import opened ByteStrings
  import opened Events
  import opened Chain
  import opened Rows
  import opened Paging
  import opened Ingest
  import opened Sweep
  import A = Arrival

  /** One message whose event, if accepted, is after all stored ones. */
  ghost predicate IngestsInOrder(cfg: Config, a: Stores, b: Stores)
  {
    exists value, now :: b == Process(cfg, a, value, now).0 && (b.rows != a.rows ==> InOrder(a, b))
  }

  /** The newest arrival is after every row that was there. */
  ghost predicate InOrder(a: Stores, b: Stores)
  {
    b.log != [] && (a.rows == [] || Before(a.rows[|a.rows| - 1], b.log[|b.log| - 1]))
  }

  ghost predicate Reflags(a: Stores, b: Stores)
  {
    b == a.(rows := b.rows) &&
    ((exists id, hold :: b.rows == SetHold(a.rows, id, hold)) || (exists k :: b.rows == MarkUpTo(a.rows, k)))
  }

  ghost predicate LiveStep(cfg: Config, a: Stores, b: Stores)
  {
    IngestsInOrder(cfg, a, b) || Reflags(a, b)
  }

  /** A run from empty stores, every state of it. */
  ghost predicate LiveRun(cfg: Config, states: seq<Stores>)
    ensures LiveRun(cfg, states) ==> states != []
  {
    && states != [] && states[0] == EMPTY
    && forall i, j :: 0 <= i < |states| && j == i + 1 < |states| ==> LiveStep(cfg, states[i], states[j])
  }

  ghost predicate Healthy(hash: EventHash, rows: seq<Event>)
  {
    && Table(rows) && Stamped(rows) && Intact(hash, rows)
    && forall i :: 0 <= i < |rows| ==> |rows[i].thisHash| == 32
  }

  lemma IntactAppend(hash: EventHash, rows: seq<Event>, row: Event)
    requires Intact(hash, rows) && Authentic(hash, row)
    requires rows == [] || Linked(rows[|rows| - 1], row)
    ensures Intact(hash, rows + [row])
  {
  }

  lemma GrowsAppend(rows: seq<Event>, row: Event)
    ensures Grows(rows, rows + [row])
  {
  }

  lemma AppendKeepsHealth(cfg: Config, rows: seq<Event>, p: Prepared)
    requires Healthy(cfg.hash, rows) && SoundPrepared(cfg, p) && !HasId(rows, p.id)
    requires rows == [] || Before(rows[|rows| - 1], RowFor(cfg, p, PrevHashFor(rows)))
    ensures var row := RowFor(cfg, p, PrevHashFor(rows));
            Healthy(cfg.hash, InsertSorted(rows, row)) && Grows(rows, InsertSorted(rows, row))
  {
    hide Table, KeyLess, Intact, Grows, Stamped, InsertSorted, HasId;
    var row := RowFor(cfg, p, PrevHashFor(rows));
    InsertKeepsTable(rows, row);
    InsertInOrder(rows, row);
    A.InsertKeepsStamped(rows, row);
    IntactAppend(cfg.hash, rows, row);
    GrowsAppend(rows, row);
  }

  lemma ReflagKeepsHealth(hash: EventHash, a: seq<Event>, b: seq<Event>)
    requires Healthy(hash, a) && SameRowsButFlags(a, b)
    ensures Healthy(hash, b) && Grows(a, b)
  {
  }

  lemma IngestKeepsHealth(cfg: Config, a: Stores, b: Stores)
    requires Healthy(cfg.hash, a.rows) && IngestsInOrder(cfg, a, b)
    ensures Healthy(cfg.hash, b.rows) && Grows(a.rows, b.rows)
  {
    hide Prepare, Healthy, HasId, InsertSorted;
    var value, now :| b == Process(cfg, a, value, now).0 && (b.rows != a.rows ==> InOrder(a, b));
    if b.rows == a.rows {
      ReflagKeepsHealth(cfg.hash, a.rows, b.rows) by { SameItself(a.rows); }
    } else {
      PreparedIsSound(cfg, value);
      AppendKeepsHealth(cfg, a.rows, Prepare(cfg, value).p);
    }
  }

  lemma SameItself(rows: seq<Event>)
    ensures SameRowsButFlags(rows, rows)
  {
  }

  lemma LiveStepKeepsHealth(cfg: Config, a: Stores, b: Stores)
    requires Healthy(cfg.hash, a.rows) && LiveStep(cfg, a, b)
    ensures Healthy(cfg.hash, b.rows) && Grows(a.rows, b.rows)
  {
    hide Healthy, Grows, IngestsInOrder;
    if IngestsInOrder(cfg, a, b) {
      IngestKeepsHealth(cfg, a, b);
    } else {
      ReflagKeepsHealth(cfg.hash, a.rows, b.rows);
    }
  }

  lemma GrowsTransitive(a: seq<Event>, b: seq<Event>, c: seq<Event>)
    requires Grows(a, b) && Grows(b, c)
    ensures Grows(a, c)
  {
  }

  lemma {:induction false} LiveRunHealthy(cfg: Config, states: seq<Stores>, i: nat)
    requires LiveRun(cfg, states) && i < |states|
    ensures Healthy(cfg.hash, states[i].rows)
  {
    hide LiveStep;
    if i > 0 {
      LiveRunHealthy(cfg, states, i - 1);
      LiveStepKeepsHealth(cfg, states[i - 1], states[i]);
    }
  }

  lemma {:induction false} LiveRunGrows(cfg: Config, states: seq<Stores>, i: nat, j: nat)
    requires LiveRun(cfg, states) && i <= j < |states|
    ensures Grows(states[i].rows, states[j].rows)
    decreases j - i
  {
    hide LiveStep, Grows, Healthy;
    if i == j {
      SameItself(states[i].rows);
      GrowsItself(states[i].rows);
    } else {
      LiveRunGrows(cfg, states, i, j - 1);
      LiveRunHealthy(cfg, states, j - 1);
      LiveStepKeepsHealth(cfg, states[j - 1], states[j]);
      GrowsTransitive(states[i].rows, states[j - 1].rows, states[j].rows);
    }
  }

  lemma GrowsItself(rows: seq<Event>)
    ensures Grows(rows, rows)
  {
  }

  /** The table at each page fetch: fetch number n happens in state at[n]. */
  function TablesAt(states: seq<Stores>, at: seq<nat>): (ts: seq<seq<Event>>)
    requires forall n :: 0 <= n < |at| ==> at[n] < |states|
    ensures |ts| == |at| && forall n :: 0 <= n < |at| ==> ts[n] == states[at[n]].rows
  {
    if at == [] then [] else [states[at[0]].rows] + TablesAt(states, at[1..])
  }

  lemma TablesGrow(cfg: Config, states: seq<Stores>, at: seq<nat>)
    requires LiveRun(cfg, states)
    requires forall n :: 0 <= n < |at| ==> at[n] < |states|
    requires forall m, n :: 0 <= m < n < |at| ==> at[m] <= at[n]
    ensures GrowingTables(TablesAt(states, at), states[|states| - 1].rows)
  {
    hide LiveRun, Grows;
    var tables, last := TablesAt(states, at), |states| - 1;
    forall n | 0 <= n < |at|
      ensures Sorted(tables[n]) && Stamped(tables[n]) && Grows(tables[n], states[last].rows)
    {
      LiveRunHealthy(cfg, states, at[n]);
      LiveRunGrows(cfg, states, at[n], last);
    }
    forall i, j | 0 <= i < |tables| && j == i + 1 < |tables|
      ensures |tables[i]| <= |tables[j]|
    {
      LiveRunGrows(cfg, states, at[i], at[j]);
      GrowsLonger(tables[i], tables[j]);
    }
  }

  lemma GrowsLonger(a: seq<Event>, b: seq<Event>)
    requires Grows(a, b)
    ensures |a| <= |b|
  {
  }

  /** A sweep over any window whose page fetches fall anywhere in such a run, in that
      order, has, if it ends, read a contiguous segment of the final table that begins
      with every in-window event of the first fetch, and finds it intact. */
  lemma SweepBesideIngest(cfg: Config, states: seq<Stores>, at: seq<nat>, from: Time, to: Time)
    returns (lo: nat, hi: nat)
    requires LiveRun(cfg, states)
    requires forall n :: 0 <= n < |at| ==> at[n] < |states|
    requires forall m, n :: 0 <= m < n < |at| ==> at[m] <= at[n]
    requires SweepOver(TablesAt(states, at), WindowFilter(from, to)).1
    ensures at != []
    ensures var final := states[|states| - 1].rows;
            var first := Select(states[at[0]].rows, WindowFilter(from, to));
            var read := SweepOver(TablesAt(states, at), WindowFilter(from, to)).0;
            && lo <= hi <= |final| && |first| <= hi - lo
            && SameRowsButFlags(read, final[lo..hi])
            && SameRowsButFlags(first, final[lo..lo + |first|])
            && Intact(cfg.hash, read)
  {
    hide LiveRun, Select, GrowingTables, Page, LiveStep;
    assert at != [];
    TablesGrow(cfg, states, at);
    var last := |states| - 1;
    LiveRunHealthy(cfg, states, last);
    lo, hi := InterleavedSweepSound(cfg.hash, TablesAt(states, at), states[last].rows, from, to);
  }
}

/** Whole fault-free sequential runs of the ingest pipeline from empty stores: when
    the stored chain verifies, and why redelivery cannot be seen in the table. */
module Arrival {
  import opened ByteStrings
  import opened Events
  import opened Chain
  import opened Rows
  import opened Wire
  import opened Ingest
  import V = Vault
  import M = MemStore

  /** The messages of a run, each with the clock reading at its payload put. */
  type Message = (Bytes, Time)

  ghost function Run(cfg: Config, msgs: seq<Message>): Stores
  {
    if msgs == [] then EMPTY
    else
      var n := |msgs| - 1;
      Process(cfg, Run(cfg, msgs[..n]), msgs[n].0, msgs[n].1).0
  }

  // ---- what every run keeps ----

  /** The i-th arrival points at the greatest event that arrived before it. */
  ghost predicate PointsAtMaximum(log: seq<Event>, i: nat)
    requires i < |log|
  {
    if i == 0 then log[0].sealed.prevHash == ZERO_HASH
    else exists m :: 0 <= m < i && Linked(log[m], log[i]) && MaximumOf(log, i, m)
  }

  ghost predicate MaximumOf(log: seq<Event>, i: nat, m: nat)
    requires m < i <= |log|
  {
    forall j :: 0 <= j < i ==> KeyAtMost(KeyOf(log[j]), KeyOf(log[m]))
  }

  /** Arrivals have distinct ids, recomputable 32-byte hashes, and point at the
      greatest arrival before them. */
  ghost predicate LogSound(hash: EventHash, log: seq<Event>)
  {
    && DistinctIds(log)
    && (forall i :: 0 <= i < |log| ==> Authentic(hash, log[i]) && |log[i].thisHash| == 32)
    && (forall i :: 0 <= i < |log| ==> PointsAtMaximum(log, i))
  }

  /** The table holds the arrivals, sorted. */
  ghost predicate WellLogged(hash: EventHash, st: Stores)
  {
    && Table(st.rows) && Stamped(st.rows) && multiset(st.rows) == multiset(st.log)
    && LogSound(hash, st.log)
  }

  lemma InLogIffInRows(hash: EventHash, st: Stores, e: Event)
    requires multiset(st.rows) == multiset(st.log)
    ensures e in st.rows <==> e in st.log
  {
    assert e in st.rows <==> e in multiset(st.rows);
    assert e in st.log <==> e in multiset(st.log);
  }

  /** The head a call reads is the greatest arrival so far. */
  lemma HeadIsGreatestArrival(hash: EventHash, st: Stores) returns (m: nat)
    requires WellLogged(hash, st) && st.log != []
    ensures st.rows != [] && m < |st.log| && st.log[m] == st.rows[|st.rows| - 1]
    ensures MaximumOf(st.log, |st.log|, m)
    ensures PrevHashFor(st.rows) == st.log[m].thisHash
  {
    InLogIffInRows(hash, st, st.log[0]);
    var head := st.rows[|st.rows| - 1];
    InLogIffInRows(hash, st, head);
    m :| 0 <= m < |st.log| && st.log[m] == head;
    HeadIsMaximum(st.rows);
    forall j | 0 <= j < |st.log|
      ensures KeyAtMost(KeyOf(st.log[j]), KeyOf(head))
    {
      InLogIffInRows(hash, st, st.log[j]);
    }
  }

  lemma FreshIdFreshInLog(hash: EventHash, st: Stores, id: Bytes)
    requires multiset(st.rows) == multiset(st.log)
    ensures HasId(st.rows, id) <==> HasId(st.log, id)
  {
    if HasId(st.rows, id) {
      var i :| 0 <= i < |st.rows| && st.rows[i].sealed.id == id;
      InLogIffInRows(hash, st, st.rows[i]);
    }
    if HasId(st.log, id) {
      var i :| 0 <= i < |st.log| && st.log[i].sealed.id == id;
      InLogIffInRows(hash, st, st.log[i]);
    }
  }

  lemma ExtendLog(hash: EventHash, log: seq<Event>, row: Event, m: nat)
    requires LogSound(hash, log) && !HasId(log, row.sealed.id)
    requires Authentic(hash, row) && |row.thisHash| == 32
    requires if log == [] then row.sealed.prevHash == ZERO_HASH
             else m < |log| && Linked(log[m], row) && MaximumOf(log, |log|, m)
    ensures LogSound(hash, log + [row])
  {
    hide KeyAtMost, Authentic;
    var out := log + [row];
    forall i | 0 <= i < |out|
      ensures PointsAtMaximum(out, i)
    {
      if i < |log| {
        assert PointsAtMaximum(log, i);
        if i > 0 {
          var k :| 0 <= k < i && Linked(log[k], log[i]) && MaximumOf(log, i, k);
          assert Linked(out[k], out[i]) && MaximumOf(out, i, k);
        }
      } else if i > 0 {
        assert Linked(out[m], out[i]) && MaximumOf(out, i, m);
      }
    }
    forall i, j | 0 <= i < j < |out|
      ensures out[i].sealed.id != out[j].sealed.id
    {
      assert out[i] == log[i];
    }
  }

  lemma InsertKeepsStamped(rows: seq<Event>, e: Event)
    requires Stamped(rows) && e.sealed.ts != ZERO_TIME
    ensures Stamped(InsertSorted(rows, e))
  {
  }

  lemma InsertKeepsLogged(cfg: Config, st: Stores, p: Prepared, objects: V.Objects)
    requires WellLogged(cfg.hash, st) && SoundPrepared(cfg, p) && !HasId(st.rows, p.id)
    ensures var row := RowFor(cfg, p, PrevHashFor(st.rows));
            WellLogged(cfg.hash, Stores(InsertSorted(st.rows, row), objects, st.log + [row]))
  {
    hide Table, Stamped, LogSound, HasId, InsertSorted, MaximumOf;
    var row := RowFor(cfg, p, PrevHashFor(st.rows));
    InsertKeepsTable(st.rows, row);
    InsertKeepsStamped(st.rows, row);
    FreshIdFreshInLog(cfg.hash, st, p.id);
    var m := 0;
    if st.log == [] {
      assert |multiset(st.rows)| == |st.rows| && |multiset(st.log)| == |st.log|;
    } else {
      m := HeadIsGreatestArrival(cfg.hash, st);
    }
    ExtendLog(cfg.hash, st.log, row, m);
  }

  lemma ProcessKeepsLogged(cfg: Config, st: Stores, value: Bytes, now: Time)
    requires WellLogged(cfg.hash, st)
    ensures WellLogged(cfg.hash, Process(cfg, st, value, now).0)
  {
    hide Prepare, WellLogged;
    if Prepare(cfg, value).Ready? {
      var p := Prepare(cfg, value).p;
      PreparedIsSound(cfg, value);
      if PayloadAccepted(cfg, st.objects, p, now) {
        var objects := AfterPayload(cfg, st.objects, p, now);
        if !HasId(st.rows, p.id) {
          InsertKeepsLogged(cfg, st, p, objects);
        } else {
          LoggedIgnoresObjects(cfg.hash, st, objects);
        }
      }
    }
  }

  lemma LoggedIgnoresObjects(hash: EventHash, st: Stores, objects: V.Objects)
    requires WellLogged(hash, st)
    ensures WellLogged(hash, st.(objects := objects))
  {
  }

  lemma {:induction false} RunIsLogged(cfg: Config, msgs: seq<Message>)
    ensures WellLogged(cfg.hash, Run(cfg, msgs))
  {
    if msgs != [] {
      var n := |msgs| - 1;
      RunIsLogged(cfg, msgs[..n]);
      ProcessKeepsLogged(cfg, Run(cfg, msgs[..n]), msgs[n].0, msgs[n].1);
    }
  }

  // ---- the stored chain verifies exactly when arrivals came in order ----

  lemma InOrderIsIntact(hash: EventHash, st: Stores)
    requires WellLogged(hash, st) && Sorted(st.log)
    ensures st.rows == st.log && Intact(hash, st.rows)
  {
    hide KeyLess;
    SortedListingUnique(st.rows, st.log);
    var log := st.log;
    forall i, j | 0 <= i < |log| && j == i + 1 < |log|
      ensures Linked(log[i], log[j])
    {
      assert PointsAtMaximum(log, j);
      var m :| 0 <= m < j && Linked(log[m], log[j]) && MaximumOf(log, j, m);
      if m < i {
        assert Before(log[m], log[i]) && KeyAtMost(KeyOf(log[i]), KeyOf(log[m]));
        KeyLessAsymmetric(KeyOf(log[m]), KeyOf(log[i]));
      }
    }
  }

  /** Which arrival a link of the stored chain names. */
  lemma LinkNames(hash: EventHash, st: Stores, a: Event, b: Event)
    requires WellLogged(hash, st) && Faithful(hash, st.log) && a in st.log && b in st.log
    requires a.thisHash == b.thisHash
    ensures a == b
  {
  }

  /** An arrival that is not greater than some earlier one breaks the stored chain. */
  lemma LateArrivalBreaks(hash: EventHash, st: Stores, j: nat, m: nat)
    requires WellLogged(hash, st) && Faithful(hash, st.log) && NoneHashesToZero(hash, st.log)
    requires m < j < |st.log| && Linked(st.log[m], st.log[j]) && MaximumOf(st.log, j, m)
    requires Before(st.log[j], st.log[m])
    ensures !Intact(hash, st.rows)
  {
    hide Table, KeyLess, PointsAtMaximum, MaximumOf;
    var log, rows, e, x := st.log, st.rows, st.log[j], st.log[m];
    InLogIffInRows(hash, st, e);
    InLogIffInRows(hash, st, x);
    var a :| 0 <= a < |rows| && rows[a] == e;
    var b :| 0 <= b < |rows| && rows[b] == x;
    SortedKeyApart(rows, a, b) by { TableSorted(rows); }
    if Intact(hash, rows) {
      if a > 0 {
        InLogIffInRows(hash, st, rows[a - 1]);
        assert Linked(rows[a - 1], rows[a]);
        LinkNames(hash, st, rows[a - 1], x);
        SortedKeyApart(rows, a, a - 1) by { TableSorted(rows); }
        assert false;
      } else {
        InLogIffInRows(hash, st, rows[1]);
        assert Linked(rows[0], rows[1]);
        NobodyPointsAtLate(hash, st, j, m, rows[1]);
        assert false;
      }
    }
  }

  lemma TableSorted(rows: seq<Event>)
    requires Table(rows)
    ensures Sorted(rows)
  {
  }

  /** No arrival points at one that was not the greatest when it came. */
  lemma NobodyPointsAtLate(hash: EventHash, st: Stores, j: nat, m: nat, g: Event)
    requires WellLogged(hash, st) && Faithful(hash, st.log) && NoneHashesToZero(hash, st.log)
    requires m < j < |st.log| && Before(st.log[j], st.log[m]) && g in st.log
    ensures !Linked(st.log[j], g)
  {
    hide Table, KeyLess;
    var log := st.log;
    var k :| 0 <= k < |log| && log[k] == g;
    if Linked(log[j], g) {
      assert PointsAtMaximum(log, k) && Authentic(hash, log[j]);
      assert k > 0;
      var n :| 0 <= n < k && Linked(log[n], log[k]) && MaximumOf(log, k, n);
      LinkNames(hash, st, log[n], log[j]);
      assert n == j;
      assert KeyAtMost(KeyOf(log[m]), KeyOf(log[j]));
      KeyLessAsymmetric(KeyOf(log[j]), KeyOf(log[m]));
    }
  }

  /** Over every run: verifying the whole table succeeds if and only if the accepted
      events arrived in strictly increasing (ts, id) order. */
  lemma ChainVerifiesIffInOrder(cfg: Config, msgs: seq<Message>)
    requires Faithful(cfg.hash, Run(cfg, msgs).log) && NoneHashesToZero(cfg.hash, Run(cfg, msgs).log)
    ensures Intact(cfg.hash, Run(cfg, msgs).rows) <==> Sorted(Run(cfg, msgs).log)
  {
    hide Run;
    var st := Run(cfg, msgs);
    RunIsLogged(cfg, msgs);
    if Sorted(st.log) {
      InOrderIsIntact(cfg.hash, st);
    } else {
      var i, j :| 0 <= i < j < |st.log| && !Before(st.log[i], st.log[j]);
      OutOfOrderBreaks(cfg.hash, st, i, j);
    }
  }

  lemma OutOfOrderBreaks(hash: EventHash, st: Stores, i: nat, j: nat)
    requires WellLogged(hash, st) && Faithful(hash, st.log) && NoneHashesToZero(hash, st.log)
    requires i < j < |st.log| && !Before(st.log[i], st.log[j])
    ensures !Intact(hash, st.rows)
  {
    hide Table, KeyLess;
    var log := st.log;
    assert PointsAtMaximum(log, j);
    var m :| 0 <= m < j && Linked(log[m], log[j]) && MaximumOf(log, j, m);
    KeyLessTotal(KeyOf(log[i]), KeyOf(log[j]));
    assert KeyAtMost(KeyOf(log[i]), KeyOf(log[m]));
    if KeyOf(log[i]) != KeyOf(log[m]) {
      KeyLessTransitive(KeyOf(log[j]), KeyOf(log[i]), KeyOf(log[m]));
    }
    LateArrivalBreaks(hash, st, j, m);
  }

  // ---- redelivery is invisible ----

  ghost predicate Seen(cfg: Config, msgs: seq<Message>, id: Bytes)
  {
    exists i :: 0 <= i < |msgs| && PreparesAs(cfg, msgs[i], id)
  }

  ghost predicate PreparesAs(cfg: Config, m: Message, id: Bytes)
  {
    Prepare(cfg, m.0).Ready? && Prepare(cfg, m.0).p.id == id
  }

  /** The first accepted message of each id. */
  ghost function FirstOfEachId(cfg: Config, msgs: seq<Message>): seq<Message>
  {
    if msgs == [] then []
    else
      var n := |msgs| - 1;
      var first, m := FirstOfEachId(cfg, msgs[..n]), msgs[n];
      if Prepare(cfg, m.0).Ready? && !Seen(cfg, msgs[..n], Prepare(cfg, m.0).p.id) then first + [m] else first
  }

  /** Objects exist only under ids that have a row. */
  ghost predicate ObjectsHaveRows(cfg: Config, st: Stores)
  {
    forall path :: path in st.objects ==> exists i :: 0 <= i < |st.rows| && path == V.Path(cfg.bucket, st.rows[i].sealed.id)
  }

  lemma NoRowNoObject(cfg: Config, st: Stores, p: Prepared, now: Time)
    requires ObjectsHaveRows(cfg, st) && !HasId(st.rows, p.id)
    ensures PayloadAccepted(cfg, st.objects, p, now)
  {
    if PathFor(cfg, p) in st.objects {
      var i :| 0 <= i < |st.rows| && PathFor(cfg, p) == V.Path(cfg.bucket, st.rows[i].sealed.id);
      SameBucketPaths(cfg.bucket, p.id, st.rows[i].sealed.id);
    }
  }

  lemma SameBucketPaths(bucket: Bytes, a: Bytes, b: Bytes)
    ensures V.Path(bucket, a) == V.Path(bucket, b) ==> a == b
  {
    var x, y := V.Path(bucket, a), V.Path(bucket, b);
    assert x[|bucket| + 1..] == a && y[|bucket| + 1..] == b;
  }

  /** One message: rows change exactly for a new id, and then in a way that depends
      on the rows alone. */
  lemma ProcessRows(cfg: Config, st: Stores, m: Message)
    requires ObjectsHaveRows(cfg, st)
    ensures var out, prep := Process(cfg, st, m.0, m.1).0, Prepare(cfg, m.0);
            if prep.Ready? && !HasId(st.rows, prep.p.id) then
              var row := RowFor(cfg, prep.p, PrevHashFor(st.rows));
              out.rows == InsertSorted(st.rows, row) && out.log == st.log + [row]
            else out.rows == st.rows && out.log == st.log
    ensures ObjectsHaveRows(cfg, Process(cfg, st, m.0, m.1).0)
  {
    hide Prepare, Slot;
    var out, prep := Process(cfg, st, m.0, m.1).0, Prepare(cfg, m.0);
    if prep.Ready? {
      var p := prep.p;
      if !HasId(st.rows, p.id) {
        NoRowNoObject(cfg, st, p, m.1);
        InsertKeepsObjects(cfg, st, p, m.1);
      } else {
        var i :| 0 <= i < |st.rows| && st.rows[i].sealed.id == p.id;
        assert PathFor(cfg, p) == V.Path(cfg.bucket, st.rows[i].sealed.id);
      }
    }
  }

  lemma InsertKeepsObjects(cfg: Config, st: Stores, p: Prepared, now: Time)
    requires ObjectsHaveRows(cfg, st)
    ensures var row := RowFor(cfg, p, PrevHashFor(st.rows));
            ObjectsHaveRows(cfg, Stores(InsertSorted(st.rows, row), AfterPayload(cfg, st.objects, p, now), st.log + [row]))
  {
    hide Slot, InsertSorted, KeyLess;
    var row := RowFor(cfg, p, PrevHashFor(st.rows));
    var rows, objects := InsertSorted(st.rows, row), AfterPayload(cfg, st.objects, p, now);
    forall path | path in objects
      ensures exists i :: 0 <= i < |rows| && path == V.Path(cfg.bucket, rows[i].sealed.id)
    {
      var id := p.id;
      if path in st.objects {
        var i :| 0 <= i < |st.rows| && path == V.Path(cfg.bucket, st.rows[i].sealed.id);
        id := st.rows[i].sealed.id;
      }
      InsertSortedIds(st.rows, row, id);
      assert path == V.Path(cfg.bucket, id);
    }
  }

  lemma {:induction false} RunKeepsObjects(cfg: Config, msgs: seq<Message>)
    ensures ObjectsHaveRows(cfg, Run(cfg, msgs))
  {
    if msgs != [] {
      var n := |msgs| - 1;
      RunKeepsObjects(cfg, msgs[..n]);
      ProcessRows(cfg, Run(cfg, msgs[..n]), msgs[n]);
    }
  }

  lemma {:induction false} RowIdsAreSeen(cfg: Config, msgs: seq<Message>, id: Bytes)
    ensures HasId(Run(cfg, msgs).rows, id) <==> Seen(cfg, msgs, id)
  {
    if msgs != [] {
      hide Prepare, Process, InsertSorted, Run;
      var n := |msgs| - 1;
      var st, m := Run(cfg, msgs[..n]), msgs[n];
      RowIdsAreSeen(cfg, msgs[..n], id);
      RunKeepsObjects(cfg, msgs[..n]);
      RunStep(cfg, msgs);
      ProcessRows(cfg, st, m);
      SeenStep(cfg, msgs, id);
      if Prepare(cfg, m.0).Ready? {
        InsertSortedIds(st.rows, RowFor(cfg, Prepare(cfg, m.0).p, PrevHashFor(st.rows)), id);
      }
    } else {
      assert Run(cfg, msgs).rows == [];
    }
  }

  lemma RunStep(cfg: Config, msgs: seq<Message>)
    requires msgs != []
    ensures var n := |msgs| - 1; Run(cfg, msgs) == Process(cfg, Run(cfg, msgs[..n]), msgs[n].0, msgs[n].1).0
  {
  }

  lemma SeenStep(cfg: Config, msgs: seq<Message>, id: Bytes)
    requires msgs != []
    ensures var n := |msgs| - 1; Seen(cfg, msgs, id) <==> Seen(cfg, msgs[..n], id) || PreparesAs(cfg, msgs[n], id)
  {
  }

  lemma InsertSortedIds(rows: seq<Event>, e: Event, id: Bytes)
    ensures HasId(InsertSorted(rows, e), id) <==> id == e.sealed.id || HasId(rows, id)
  {
    M.InsertAddsId(rows, e, Slot(rows, KeyOf(e)), id);
  }

  /** At-least-once delivery is invisible: any sequence of messages leaves the same
      table as its first accepted message per id alone, whether a repeat was stopped
      by the retention of its payload object or by the insert. */
  lemma {:induction false} RedeliveryInvisible(cfg: Config, msgs: seq<Message>)
    ensures Run(cfg, msgs).rows == Run(cfg, FirstOfEachId(cfg, msgs)).rows
    ensures Run(cfg, msgs).log == Run(cfg, FirstOfEachId(cfg, msgs)).log
  {
    if msgs != [] {
      hide Prepare, Process, InsertSorted, Run, Seen, HasId;
      var n := |msgs| - 1;
      var front, m := msgs[..n], msgs[n];
      var first := FirstOfEachId(cfg, front);
      RedeliveryInvisible(cfg, front);
      RunKeepsObjects(cfg, front);
      RunStep(cfg, msgs);
      ProcessRows(cfg, Run(cfg, front), m);
      if Prepare(cfg, m.0).Ready? {
        RowIdsAreSeen(cfg, front, Prepare(cfg, m.0).p.id);
        RunKeepsObjects(cfg, first);
        RunStep(cfg, first + [m]);
        assert (first + [m])[..|first|] == first;
        ProcessRows(cfg, Run(cfg, first), m);
      }
    }
  }

  // ---- the order theorem on the messages themselves ----

  ghost function MessageKey(cfg: Config, m: Message): Key
  {
    match Prepare(cfg, m.0)
    case Ready(p) => Key(p.ts, p.id)
    case Rejected(_) => NO_CURSOR
  }

  /** The row carries the fields of the message, whatever it points at. */
  ghost predicate RowOf(cfg: Config, m: Message, row: Event)
  {
    Prepare(cfg, m.0).Ready? && row == RowFor(cfg, Prepare(cfg, m.0).p, row.sealed.prevHash)
  }

  /** The arrivals of a run are, in order, the rows of its first accepted messages. */
  lemma {:induction false} LogIsFirsts(cfg: Config, msgs: seq<Message>)
    ensures var log, first := Run(cfg, msgs).log, FirstOfEachId(cfg, msgs);
            |log| == |first| && forall i :: 0 <= i < |log| ==> RowOf(cfg, first[i], log[i])
  {
    if msgs != [] {
      hide Prepare, Process, InsertSorted, Run, Seen, HasId, PrevHashFor, RowFor;
      var n := |msgs| - 1;
      LogIsFirsts(cfg, msgs[..n]);
      RunKeepsObjects(cfg, msgs[..n]);
      RunStep(cfg, msgs);
      ProcessRows(cfg, Run(cfg, msgs[..n]), msgs[n]);
      if Prepare(cfg, msgs[n].0).Ready? {
        var p := Prepare(cfg, msgs[n].0).p;
        RowIdsAreSeen(cfg, msgs[..n], p.id);
        RowForItself(cfg, p, PrevHashFor(Run(cfg, msgs[..n]).rows));
      }
    } else {
      assert Run(cfg, msgs).log == [];
    }
  }

  /** The first accepted message of each id came in strictly increasing (ts, id) order. */
  ghost predicate MessagesInOrder(cfg: Config, msgs: seq<Message>)
  {
    var first := FirstOfEachId(cfg, msgs);
    forall i, j :: 0 <= i < j < |first| ==> KeyLess(MessageKey(cfg, first[i]), MessageKey(cfg, first[j]))
  }

  /** Over every run: verifying the whole table succeeds if and only if the first
      accepted messages of each id were sent in strictly increasing (ts, id) order. */
  lemma VerifiesIffMessagesInOrder(cfg: Config, msgs: seq<Message>)
    requires Faithful(cfg.hash, Run(cfg, msgs).log) && NoneHashesToZero(cfg.hash, Run(cfg, msgs).log)
    ensures Intact(cfg.hash, Run(cfg, msgs).rows) <==> MessagesInOrder(cfg, msgs)
  {
    hide Run, Prepare, Intact, Faithful, NoneHashesToZero, KeyLess, FirstOfEachId;
    ChainVerifiesIffInOrder(cfg, msgs);
    LogIsFirsts(cfg, msgs);
    var log, first := Run(cfg, msgs).log, FirstOfEachId(cfg, msgs);
    forall i | 0 <= i < |log|
      ensures KeyOf(log[i]) == MessageKey(cfg, first[i])
    {
      assert RowOf(cfg, first[i], log[i]);
    }
    assert Sorted(log) <==> MessagesInOrder(cfg, msgs);
  }

  /** The smallest failing run: two accepted messages, the second with the smaller key. */
  lemma LateSecondBreaks(cfg: Config, m1: Message, m2: Message)
    requires Prepare(cfg, m1.0).Ready? && Prepare(cfg, m2.0).Ready? && Prepare(cfg, m1.0).p.id != Prepare(cfg, m2.0).p.id
    requires KeyLess(MessageKey(cfg, m2), MessageKey(cfg, m1))
    requires var row := RowFor(cfg, Prepare(cfg, m1.0).p, ZERO_HASH);
             cfg.hash(SealedFor(Prepare(cfg, m2.0).p, row.thisHash)) != ZERO_HASH
    ensures var rows := Run(cfg, [m1, m2]).rows;
            && |rows| == 2 && KeyOf(rows[0]) == MessageKey(cfg, m2) && KeyOf(rows[1]) == MessageKey(cfg, m1)
            && !Intact(cfg.hash, rows)
  {
    hide Prepare, Process, KeyLess, Run;
    var p1, p2 := Prepare(cfg, m1.0).p, Prepare(cfg, m2.0).p;
    RunOfTwo(cfg, m1, m2);
    var e1 := RowFor(cfg, p1, ZERO_HASH);
    var e2 := RowFor(cfg, p2, e1.thisHash);
    KeyLessAsymmetric(KeyOf(e2), KeyOf(e1));
    assert Slot([e1], KeyOf(e2)) == 0 by { assert [e1][..0] == []; }
    var rows := Run(cfg, [m1, m2]).rows;
    assert rows == [e2, e1];
    assert !Linked(rows[0], rows[1]);
  }

  lemma RunOfTwo(cfg: Config, m1: Message, m2: Message)
    requires Prepare(cfg, m1.0).Ready? && Prepare(cfg, m2.0).Ready? && Prepare(cfg, m1.0).p.id != Prepare(cfg, m2.0).p.id
    ensures var e1 := RowFor(cfg, Prepare(cfg, m1.0).p, ZERO_HASH);
            Run(cfg, [m1, m2]).rows == InsertSorted([e1], RowFor(cfg, Prepare(cfg, m2.0).p, e1.thisHash))
  {
    hide Prepare, Process;
    RunStep(cfg, [m1]);
    RunStep(cfg, [m1, m2]);
    assert [m1][..0] == [] && [m1, m2][..1] == [m1];
    ProcessRows(cfg, EMPTY, m1);
    ProcessRows(cfg, Run(cfg, [m1]), m2);
    assert InsertSorted([], RowFor(cfg, Prepare(cfg, m1.0).p, ZERO_HASH)) == [RowFor(cfg, Prepare(cfg, m1.0).p, ZERO_HASH)];
  }
}

/** The whole service as a step relation: any number of concurrent ingest calls,
    anchor jobs, exports, legal holds and object-store operations, interleaved at
    their store accesses, with faults, on a clock that moves forward. */
module AuditSystem {
  import opened ByteStrings
  import opened Events
  import opened Chain
  import opened Rows
  import opened Ingest
  import R = Redaction
  import V = Vault
  import S = Sweep

  /** An ingest call in flight, after each of its store accesses. The last stage
      remembers the payload object the call wrote, if it wrote one. */
  datatype Call =
    | Checked(p: Prepared)
    | HeadRead(p: Prepared, prev: Bytes)
    | PayloadDone(row: Event, written: Option<V.Object>)

  /** An anchor job in flight. */
  datatype Job =
    | HeadSeen(head: Event)
    | AnchorStored(upTo: Key)

  /** The stores, the calls and jobs in flight, and a history: rows in arrival order,
      the payload object written for each row, the rows flagged by finished marks. */
  datatype State = State(
    now: Time, rows: seq<Event>, objects: V.Objects, anchors: seq<S.Anchor>,
    calls: map<nat, Call>, jobs: map<nat, Job>,
    log: seq<Event>, writes: map<Bytes, V.Object>, marked: nat)

  /** A store access of an ingest call, or its failure. A failing put may have
      written the object; a failing insert has not inserted. */
  datatype CallAction =
    | Arrive(value: Bytes, policy: seq<R.Rule<Bytes>>)
    | ReadHead
    | HeadFails
    | PutPayload
    | PutFails(wrote: bool)
    | Insert
    | InsertFails

  datatype JobAction =
    | SeeHead
    | StoreAnchor(id: Bytes, sig: (Bytes, Bytes))
    | MarkRows
    | JobFails

  datatype Step =
    | OfCall(c: nat, call: CallAction)
    | OfJob(j: nat, job: JobAction)
    | ExportAnchor(a: S.Anchor)
    | Hold(id: Bytes, hold: bool)
    | ObjectOp(op: V.Op)
    | Tick(d: nat)

  ghost function Start(now: Time): State
  {
    State(now, [], map[], [], map[], map[], [], map[], 0)
  }

  // ---- the steps ----

  ghost function AfterPut(cfg: Config, s: State, c: nat, p: Prepared, prev: Bytes): State
  {
    var row := RowFor(cfg, p, prev);
    if !WritesPayload(cfg, p) then s.(calls := s.calls[c := PayloadDone(row, None)])
    else if !V.MayPut(s.objects, PathFor(cfg, p), s.now) then s.(calls := s.calls - {c})
    else s.(objects := AfterPayload(cfg, s.objects, p, s.now),
            calls := s.calls[c := PayloadDone(row, Some(V.NewObject(p.body, OptionsFor(cfg), s.now)))])
  }

  ghost function AfterInsert(s: State, c: nat, row: Event, written: Option<V.Object>): State
  {
    var t := s.(calls := s.calls - {c});
    if HasId(s.rows, row.sealed.id) then t
    else t.(rows := InsertSorted(s.rows, row), log := s.log + [row],
            writes := if written.Some? then s.writes[row.sealed.id := written.value] else s.writes)
  }

  ghost function AfterAnchor(s: State, j: nat, head: Event, id: Bytes, sig: (Bytes, Bytes)): State
  {
    s.(anchors := s.anchors + [S.AnchorFor(head, sig).(id := id, anchoredAt := s.now)],
       jobs := s.jobs[j := AnchorStored(KeyOf(head))])
  }

  ghost function AfterMark(s: State, j: nat, k: Key): State
  {
    s.(rows := MarkUpTo(s.rows, k), jobs := s.jobs - {j},
       marked := s.marked + NewlyMarked(s.rows, k))
  }

  /** An action that is not enabled changes nothing. */
  ghost function AfterCall(cfg: Config, s: State, c: nat, action: CallAction): State
  {
    if action.Arrive? then
      var prep := Prepare(cfg.(policy := action.policy), action.value);
      if c !in s.calls && prep.Ready? then s.(calls := s.calls[c := Checked(prep.p)]) else s
    else if c !in s.calls then s
    else
      match (action, s.calls[c])
      case (ReadHead, Checked(p)) => s.(calls := s.calls[c := HeadRead(p, PrevHashFor(s.rows))])
      case (HeadFails, Checked(_)) => s.(calls := s.calls - {c})
      case (PutPayload, HeadRead(p, prev)) => AfterPut(cfg, s, c, p, prev)
      case (PutFails(wrote), HeadRead(p, _)) =>
        s.(calls := s.calls - {c}, objects := if wrote then AfterPayload(cfg, s.objects, p, s.now) else s.objects)
      case (Insert, PayloadDone(row, written)) => AfterInsert(s, c, row, written)
      case (InsertFails, PayloadDone(_, _)) => s.(calls := s.calls - {c})
      case _ => s
  }

  ghost function AfterJob(s: State, j: nat, action: JobAction): State
  {
    if action.SeeHead? then
      if j !in s.jobs && s.rows != [] then s.(jobs := s.jobs[j := HeadSeen(s.rows[|s.rows| - 1])]) else s
    else if j !in s.jobs then s
    else
      match (action, s.jobs[j])
      case (StoreAnchor(id, sig), HeadSeen(head)) => if |head.thisHash| == 32 then AfterAnchor(s, j, head, id, sig) else s
      case (MarkRows, AnchorStored(k)) => AfterMark(s, j, k)
      case (JobFails, _) => s.(jobs := s.jobs - {j})
      case _ => s
  }

  ghost function After(cfg: Config, s: State, step: Step): State
  {
    match step
    case OfCall(c, action) => AfterCall(cfg, s, c, action)
    case OfJob(j, action) => AfterJob(s, j, action)
    case ExportAnchor(a) => s.(anchors := s.anchors + [a.(lastID := [])])
    case Hold(id, hold) => s.(rows := SetHold(s.rows, id, hold))
    case ObjectOp(op) => s.(objects := V.ApplyOp(s.objects, op, s.now))
    case Tick(d) => s.(now := s.now + d)
  }

  ghost function Run(cfg: Config, s: State, steps: seq<Step>): State
    decreases |steps|
  {
    if steps == [] then s else Run(cfg, After(cfg, s, steps[0]), steps[1..])
  }

  // ---- what a step leaves alone ----

  /** Only an enabled insert changes the rows, the history or the anchors' world. */
  lemma CallFrame(cfg: Config, s: State, c: nat, action: CallAction)
    ensures var t := AfterCall(cfg, s, c, action);
            && t.now == s.now && t.anchors == s.anchors && t.jobs == s.jobs && t.marked == s.marked
            && (if action.Insert? && c in s.calls && s.calls[c].PayloadDone?
                then t == AfterInsert(s, c, s.calls[c].row, s.calls[c].written)
                else t.rows == s.rows && t.log == s.log && t.writes == s.writes)
  {
    hide Prepare, PrevHashFor, RowFor, AfterInsert, AfterPut;
    PutFrame(cfg, s, c);
    if c in s.calls && s.calls[c].PayloadDone? {
      InsertFrame(s, c, s.calls[c].row, s.calls[c].written);
    }
  }

  lemma PutFrame(cfg: Config, s: State, c: nat)
    ensures forall p, prev :: var t := AfterPut(cfg, s, c, p, prev);
              && t.now == s.now && t.anchors == s.anchors && t.jobs == s.jobs && t.marked == s.marked
              && t.rows == s.rows && t.log == s.log && t.writes == s.writes
  {
    hide RowFor, AfterPayload, V.MayPut;
  }

  lemma InsertFrame(s: State, c: nat, row: Event, written: Option<V.Object>)
    ensures var t := AfterInsert(s, c, row, written);
            && t.now == s.now && t.anchors == s.anchors && t.jobs == s.jobs && t.marked == s.marked && t.objects == s.objects
  {
    hide HasId, InsertSorted;
  }

  /** Anchor jobs never touch calls, objects or the history, and of rows only flags. */
  lemma JobFrame(s: State, j: nat, action: JobAction)
    ensures var t := AfterJob(s, j, action);
            && t.now == s.now && t.objects == s.objects && t.calls == s.calls && t.log == s.log && t.writes == s.writes
            && SameRowsButFlags(s.rows, t.rows)
  {
  }

  /** The steps besides calls and jobs, each with all it changes: a hold sets one row's
      flag, an export adds an anchor that names no event, the object store runs one
      operation, and time moves on. */
  lemma OtherSteps(cfg: Config, s: State, step: Step)
    ensures var t := After(cfg, s, step);
            && (step.Hold? ==>
                  && t == s.(rows := t.rows) && SameRowsButFlags(s.rows, t.rows)
                  && forall i :: 0 <= i < |s.rows| ==>
                       t.rows[i].anchored == s.rows[i].anchored
                       && t.rows[i].legalHold == if s.rows[i].sealed.id == step.id then step.hold else s.rows[i].legalHold)
            && (step.ExportAnchor? ==>
                  && t == s.(anchors := t.anchors) && |t.anchors| == |s.anchors| + 1 && s.anchors <= t.anchors
                  && t.anchors[|s.anchors|].root == step.a.root && t.anchors[|s.anchors|].lastID == [])
            && (step.ObjectOp? ==> t == s.(objects := V.ApplyOp(s.objects, step.op, s.now)))
            && (step.Tick? ==> t == s.(now := s.now + step.d))
  {
    hide AfterCall, AfterJob, V.ApplyOp;
  }

  // ---- rows ----

  /** A row as inserted: it recomputes, and its key fields are set. */
  predicate SoundRow(cfg: Config, e: Event)
  {
    Authentic(cfg.hash, e) && |e.thisHash| == 32 && e.sealed.id != [] && e.sealed.ts != ZERO_TIME
  }

  ghost predicate SoundCall(cfg: Config, c: Call)
  {
    match c
    case Checked(p) => SoundPrepared(cfg, p)
    case HeadRead(p, _) => SoundPrepared(cfg, p)
    case PayloadDone(row, _) => SoundRow(cfg, row) && !row.anchored
  }

  ghost predicate RowsInv(cfg: Config, s: State)
  {
    && Table(s.rows)
    && (forall i :: 0 <= i < |s.rows| ==> SoundRow(cfg, s.rows[i]))
    && (forall c :: c in s.calls ==> SoundCall(cfg, s.calls[c]))
  }

  lemma SoundRowsInsert(cfg: Config, rows: seq<Event>, e: Event)
    requires (forall i :: 0 <= i < |rows| ==> SoundRow(cfg, rows[i])) && SoundRow(cfg, e)
    ensures forall i :: 0 <= i < |InsertSorted(rows, e)| ==> SoundRow(cfg, InsertSorted(rows, e)[i])
  {
  }

  lemma RowsCall(cfg: Config, s: State, c: nat, action: CallAction)
    requires RowsInv(cfg, s)
    ensures RowsInv(cfg, AfterCall(cfg, s, c, action))
  {
    hide Table, Prepare, HasId, InsertSorted, SoundPrepared, SoundRow;
    match action
    case Arrive(value, policy) =>
      if Prepare(cfg.(policy := policy), value).Ready? {
        PreparedIsSound(cfg.(policy := policy), value);
        SoundForAnyPolicy(cfg, policy, Prepare(cfg.(policy := policy), value).p);
      }
    case PutPayload =>
      if c in s.calls && s.calls[c].HeadRead? {
        RowForIsSound(cfg, s.calls[c].p, s.calls[c].prev);
      }
    case Insert =>
      if c in s.calls && s.calls[c].PayloadDone? && !HasId(s.rows, s.calls[c].row.sealed.id) {
        assert SoundCall(cfg, s.calls[c]);
        InsertKeepsTable(s.rows, s.calls[c].row);
        SoundRowsInsert(cfg, s.rows, s.calls[c].row);
      }
    case _ =>
  }

  lemma RowsReflag(cfg: Config, s: State, t: State)
    requires RowsInv(cfg, s) && SameRowsButFlags(s.rows, t.rows) && t.calls == s.calls
    ensures RowsInv(cfg, t)
  {
  }

  lemma RowsStep(cfg: Config, s: State, step: Step)
    requires RowsInv(cfg, s)
    ensures RowsInv(cfg, After(cfg, s, step))
  {
    hide RowsInv, AfterCall, AfterJob;
    match step
    case OfCall(c, action) => RowsCall(cfg, s, c, action);
    case OfJob(j, action) => JobFrame(s, j, action); RowsReflag(cfg, s, AfterJob(s, j, action));
    case Hold(id, hold) => RowsReflag(cfg, s, After(cfg, s, step));
    case _ => SameRowsReflexive(s.rows); RowsReflag(cfg, s, After(cfg, s, step));
  }

  lemma SameRowsReflexive(rows: seq<Event>)
    ensures SameRowsButFlags(rows, rows)
  {
  }

  lemma SoundForAnyPolicy(cfg: Config, policy: seq<R.Rule<Bytes>>, p: Prepared)
    ensures SoundPrepared(cfg.(policy := policy), p) <==> SoundPrepared(cfg, p)
  {
  }

  lemma RowForIsSound(cfg: Config, p: Prepared, prev: Bytes)
    requires SoundPrepared(cfg, p)
    ensures SoundRow(cfg, RowFor(cfg, p, prev)) && !RowFor(cfg, p, prev).anchored
  {
  }

  // ---- prev links ----

  ghost predicate InLog(log: seq<Event>, e: Event)
  {
    exists j :: 0 <= j < |log| && SameButFlags(e, log[j])
  }

  /** prev is genesis or the this_hash of an earlier arrival. */
  ghost predicate KnownPrev(log: seq<Event>, prev: Bytes)
  {
    prev == ZERO_HASH || exists j :: 0 <= j < |log| && log[j].thisHash == prev
  }

  ghost predicate KnownCall(log: seq<Event>, c: Call)
  {
    match c
    case Checked(_) => true
    case HeadRead(_, prev) => KnownPrev(log, prev)
    case PayloadDone(row, _) => KnownPrev(log, row.sealed.prevHash)
  }

  ghost predicate LinksInv(s: State)
  {
    && |s.rows| == |s.log|
    && (forall i :: 0 <= i < |s.rows| ==> InLog(s.log, s.rows[i]))
    && (forall j :: 0 <= j < |s.log| ==> InLog(s.rows, s.log[j]))
    && (forall j :: 0 <= j < |s.log| ==> KnownPrev(s.log[..j], s.log[j].sealed.prevHash))
    && (forall c :: c in s.calls ==> KnownCall(s.log, s.calls[c]))
  }

  lemma KnownPrevGrows(log: seq<Event>, e: Event, prev: Bytes)
    requires KnownPrev(log, prev)
    ensures KnownPrev(log + [e], prev)
  {
    if prev != ZERO_HASH {
      var j :| 0 <= j < |log| && log[j].thisHash == prev;
      assert (log + [e])[j] == log[j];
    }
  }

  lemma InLogInsert(rows: seq<Event>, log: seq<Event>, row: Event, i: nat)
    requires forall k :: 0 <= k < |rows| ==> InLog(log, rows[k])
    requires i < |InsertSorted(rows, row)|
    ensures InLog(log + [row], InsertSorted(rows, row)[i])
  {
    hide Slot, SameButFlags;
    var p := Slot(rows, KeyOf(row));
    SameButFlagsReflexive(row);
    if i == p {
      assert (log + [row])[|log|] == row;
    } else {
      var k := if i < p then i else i - 1;
      assert InsertSorted(rows, row)[i] == rows[k] && InLog(log, rows[k]);
      var j :| 0 <= j < |log| && SameButFlags(rows[k], log[j]);
      assert (log + [row])[j] == log[j];
    }
  }

  lemma InRowsInsert(rows: seq<Event>, e: Event, row: Event)
    requires InLog(rows, e) || e == row
    ensures InLog(InsertSorted(rows, row), e)
  {
    hide Slot, SameButFlags;
    var p, out := Slot(rows, KeyOf(row)), InsertSorted(rows, row);
    SameButFlagsReflexive(row);
    if e == row {
      assert out[p] == row;
    } else {
      var k :| 0 <= k < |rows| && SameButFlags(e, rows[k]);
      assert out[if k < p then k else k + 1] == rows[k];
    }
  }

  lemma KnownCallGrows(log: seq<Event>, e: Event, c: Call)
    requires KnownCall(log, c)
    ensures KnownCall(log + [e], c)
  {
    hide KnownPrev;
    if !c.Checked? {
      KnownPrevGrows(log, e, if c.HeadRead? then c.prev else c.row.sealed.prevHash);
    }
  }

  lemma LinksInsert(s: State, c: nat, row: Event, written: Option<V.Object>)
    requires LinksInv(s) && KnownPrev(s.log, row.sealed.prevHash)
    ensures LinksInv(AfterInsert(s, c, row, written))
  {
    hide InLog, KnownPrev, InsertSorted, KnownCall, HasId;
    var t := AfterInsert(s, c, row, written);
    if !HasId(s.rows, row.sealed.id) {
      forall i | 0 <= i < |t.rows|
        ensures InLog(t.log, t.rows[i])
      {
        InLogInsert(s.rows, s.log, row, i);
      }
      forall j | 0 <= j < |t.log|
        ensures InLog(t.rows, t.log[j]) && KnownPrev(t.log[..j], t.log[j].sealed.prevHash)
      {
        InRowsInsert(s.rows, t.log[j], row);
        assert t.log[..j] == s.log[..j];
        assert s.log[..|s.log|] == s.log;
      }
      forall d | d in t.calls
        ensures KnownCall(t.log, t.calls[d])
      {
        KnownCallGrows(s.log, row, s.calls[d]);
      }
      InsertedLength(s.rows, row);
    }
  }

  lemma InsertedLength(rows: seq<Event>, e: Event)
    ensures |InsertSorted(rows, e)| == |rows| + 1
  {
  }

  lemma SameButFlagsReflexive(e: Event)
    ensures SameButFlags(e, e)
  {
  }

  lemma LinksSameRows(s: State, t: State)
    requires LinksInv(s) && SameRowsButFlags(s.rows, t.rows) && t.log == s.log && t.calls == s.calls
    ensures LinksInv(t)
  {
  }

  lemma HeadIsKnown(s: State)
    requires LinksInv(s)
    ensures KnownPrev(s.log, PrevHashFor(s.rows))
  {
  }

  lemma LinksCall(cfg: Config, s: State, c: nat, action: CallAction)
    requires LinksInv(s)
    ensures LinksInv(AfterCall(cfg, s, c, action))
  {
    hide Prepare, HasId, InsertSorted, InLog, KnownPrev, AfterInsert, PrevHashFor, RowFor, AfterPayload, V.MayPut;
    HeadIsKnown(s);
    if c in s.calls {
      assert KnownCall(s.log, s.calls[c]);
      if s.calls[c].HeadRead? {
        RowForItself(cfg, s.calls[c].p, s.calls[c].prev);
      }
      if action.Insert? && s.calls[c].PayloadDone? {
        LinksInsert(s, c, s.calls[c].row, s.calls[c].written);
      }
    }
  }

  lemma LinksStep(cfg: Config, s: State, step: Step)
    requires LinksInv(s)
    ensures LinksInv(After(cfg, s, step))
  {
    hide LinksInv, AfterCall, AfterJob;
    match step
    case OfCall(c, action) => LinksCall(cfg, s, c, action);
    case OfJob(j, action) => JobFrame(s, j, action); LinksSameRows(s, AfterJob(s, j, action));
    case _ => SameRowsReflexive(s.rows); LinksSameRows(s, After(cfg, s, step));
  }

  // ---- payload objects ----

  /** The object w that the call behind this row wrote holds the payload the row
      hashes, and is still stored, unaltered, while its retention or hold lasts. */
  ghost predicate Backed(cfg: Config, s: State, row: Event, w: V.Object)
  {
    && row.payloadRef == row.sealed.id
    && (!row.redacted ==> cfg.sha(w.body) == row.sealed.payloadHash)
    && (V.Retained(w, s.now) ==> V.Holds(s.objects, V.Path(cfg.bucket, row.sealed.id), w))
  }

  ghost predicate BackedRow(cfg: Config, s: State, row: Event)
  {
    row.payloadRef != [] ==> row.sealed.id in s.writes && Backed(cfg, s, row, s.writes[row.sealed.id])
  }

  ghost predicate BackedCall(cfg: Config, s: State, c: Call)
  {
    c.PayloadDone? ==>
      (c.row.payloadRef != [] ==> c.written.Some?) && (c.written.Some? ==> Backed(cfg, s, c.row, c.written.value))
  }

  ghost predicate PayloadsInv(cfg: Config, s: State)
  {
    && (forall i :: 0 <= i < |s.rows| ==> BackedRow(cfg, s, s.rows[i]))
    && (forall c :: c in s.calls ==> BackedCall(cfg, s, s.calls[c]))
  }

  /** Any object-store operation and any passing of time keep every backing. */
  lemma BackedKept(cfg: Config, s: State, t: State, op: V.Op, row: Event, w: V.Object)
    requires Backed(cfg, s, row, w) && s.now <= t.now && t.objects == V.ApplyOp(s.objects, op, s.now)
    ensures Backed(cfg, t, row, w)
  {
  }

  lemma PayloadsKept(cfg: Config, s: State, t: State, op: V.Op)
    requires PayloadsInv(cfg, s) && s.now <= t.now && t.objects == V.ApplyOp(s.objects, op, s.now)
    requires t.rows == s.rows && t.writes == s.writes
    requires forall c :: c in t.calls ==> !t.calls[c].PayloadDone? || (c in s.calls && t.calls[c] == s.calls[c])
    ensures PayloadsInv(cfg, t)
  {
    hide Backed, V.ApplyOp;
    forall i | 0 <= i < |t.rows|
      ensures BackedRow(cfg, t, t.rows[i])
    {
      assert BackedRow(cfg, s, s.rows[i]);
      if s.rows[i].payloadRef != [] {
        BackedKept(cfg, s, t, op, s.rows[i], s.writes[s.rows[i].sealed.id]);
      }
    }
    forall c | c in t.calls
      ensures BackedCall(cfg, t, t.calls[c])
    {
      if t.calls[c].PayloadDone? {
        assert BackedCall(cfg, s, s.calls[c]);
        if s.calls[c].written.Some? {
          BackedKept(cfg, s, t, op, s.calls[c].row, s.calls[c].written.value);
        }
      }
    }
  }

  lemma PayloadsPut(cfg: Config, s: State, c: nat, p: Prepared, prev: Bytes)
    requires PayloadsInv(cfg, s) && SoundPrepared(cfg, p)
    ensures PayloadsInv(cfg, AfterPut(cfg, s, c, p, prev))
  {
    var t := AfterPut(cfg, s, c, p, prev);
    var u := t.(calls := s.calls - {c});
    if WritesPayload(cfg, p) && V.MayPut(s.objects, PathFor(cfg, p), s.now) {
      var op := V.Op.Put(PathFor(cfg, p), p.body, OptionsFor(cfg));
      PayloadsKept(cfg, s, u, op);
      assert Backed(cfg, t, t.calls[c].row, t.calls[c].written.value);
    } else {
      PayloadsKept(cfg, s, u, V.Op.Idle);
    }
    BackingIgnoresCalls(cfg, u, t, c);
  }

  lemma BackingIgnoresCalls(cfg: Config, u: State, t: State, c: nat)
    requires PayloadsInv(cfg, u) && u == t.(calls := u.calls)
    requires forall d :: d in t.calls && d != c ==> d in u.calls && t.calls[d] == u.calls[d]
    requires c in t.calls ==> BackedCall(cfg, t, t.calls[c])
    ensures PayloadsInv(cfg, t)
  {
  }

  /** Rows already there do not notice the insert of a row with another id. */
  lemma BackedRowKept(cfg: Config, s: State, c: nat, row: Event, written: Option<V.Object>, k: nat)
    requires k < |s.rows| && BackedRow(cfg, s, s.rows[k])
    ensures BackedRow(cfg, AfterInsert(s, c, row, written), s.rows[k])
  {
    hide InsertSorted, V.Retained, V.Holds;
    assert s.rows[k].sealed.id == row.sealed.id ==> HasId(s.rows, row.sealed.id);
  }

  lemma PayloadsInsert(cfg: Config, s: State, c: nat, row: Event, written: Option<V.Object>)
    requires PayloadsInv(cfg, s) && BackedCall(cfg, s, PayloadDone(row, written))
    ensures PayloadsInv(cfg, AfterInsert(s, c, row, written))
  {
    hide Slot, V.Retained, V.Holds, HasId, BackedRow;
    var t := AfterInsert(s, c, row, written);
    forall d | d in t.calls
      ensures BackedCall(cfg, t, t.calls[d])
    {
      assert BackedCall(cfg, s, s.calls[d]);
    }
    var p := Slot(s.rows, KeyOf(row));
    forall i | 0 <= i < |t.rows|
      ensures BackedRow(cfg, t, t.rows[i])
    {
      if !HasId(s.rows, row.sealed.id) && i == p {
        assert t.rows[i] == row;
        InsertedRowBacked(cfg, s, c, row, written);
      } else {
        var k := if HasId(s.rows, row.sealed.id) || i < p then i else i - 1;
        assert t.rows[i] == s.rows[k] && BackedRow(cfg, s, s.rows[k]);
        BackedRowKept(cfg, s, c, row, written, k);
      }
    }
  }

  lemma InsertedRowBacked(cfg: Config, s: State, c: nat, row: Event, written: Option<V.Object>)
    requires BackedCall(cfg, s, PayloadDone(row, written)) && !HasId(s.rows, row.sealed.id)
    ensures BackedRow(cfg, AfterInsert(s, c, row, written), row)
  {
    hide InsertSorted, V.Retained, V.Holds, HasId;
  }

  lemma PayloadsSameRows(cfg: Config, s: State, t: State)
    requires PayloadsInv(cfg, s) && SameRowsButFlags(s.rows, t.rows)
    requires t.now == s.now && t.objects == s.objects && t.calls == s.calls && t.writes == s.writes
    ensures PayloadsInv(cfg, t)
  {
  }

  lemma PayloadsCall(cfg: Config, s: State, c: nat, action: CallAction)
    requires RowsInv(cfg, s) && PayloadsInv(cfg, s)
    ensures PayloadsInv(cfg, AfterCall(cfg, s, c, action))
  {
    hide Prepare, HasId, InsertSorted, SoundPrepared, Table, SoundRow, BackedRow, BackedCall, AfterPut, AfterInsert;
    hide V.PutObject, V.MayPut;
    var t := AfterCall(cfg, s, c, action);
    if c in s.calls {
      assert SoundCall(cfg, s.calls[c]);
    }
    if c in s.calls && action.PutPayload? && s.calls[c].HeadRead? {
      PayloadsPut(cfg, s, c, s.calls[c].p, s.calls[c].prev);
    } else if c in s.calls && action.Insert? && s.calls[c].PayloadDone? {
      PayloadsInsert(cfg, s, c, s.calls[c].row, s.calls[c].written);
    } else if c in s.calls && action.PutFails? && s.calls[c].HeadRead? {
      var p := s.calls[c].p;
      PayloadsKept(cfg, s, t, if action.wrote && WritesPayload(cfg, p) then V.Op.Put(PathFor(cfg, p), p.body, OptionsFor(cfg)) else V.Op.Idle);
    } else {
      PayloadsKept(cfg, s, t, V.Op.Idle);
    }
  }

  lemma PayloadsStep(cfg: Config, s: State, step: Step)
    requires RowsInv(cfg, s) && PayloadsInv(cfg, s)
    ensures PayloadsInv(cfg, After(cfg, s, step))
  {
    hide RowsInv, PayloadsInv, AfterCall, AfterJob;
    var t := After(cfg, s, step);
    match step
    case OfCall(c, action) => PayloadsCall(cfg, s, c, action);
    case OfJob(j, action) => JobFrame(s, j, action); PayloadsSameRows(cfg, s, t);
    case Hold(id, hold) => PayloadsSameRows(cfg, s, t);
    case ObjectOp(op) => PayloadsKept(cfg, s, t, op);
    case _ => PayloadsKept(cfg, s, t, V.Op.Idle);
  }

  // ---- anchors ----

  /** Written by an anchor job; anchors written by exports name no last event. */
  predicate FromJob(a: S.Anchor) { a.lastID != [] }

  ghost predicate TrueAnchor(rows: seq<Event>, a: S.Anchor)
  {
    FromJob(a) ==> exists i :: 0 <= i < |rows| && KeyOf(rows[i]) == Key(a.lastTS, a.lastID) && rows[i].thisHash == a.root
  }

  ghost predicate StillThere(rows: seq<Event>, e: Event)
  {
    exists i :: 0 <= i < |rows| && SameButFlags(e, rows[i])
  }

  ghost predicate HasAnchor(anchors: seq<S.Anchor>, k: Key)
  {
    exists i :: 0 <= i < |anchors| && FromJob(anchors[i]) && Key(anchors[i].lastTS, anchors[i].lastID) == k
  }

  ghost predicate TrueJob(s: State, j: Job)
  {
    match j
    case HeadSeen(head) => StillThere(s.rows, head) && head.sealed.id != []
    case AnchorStored(k) => HasAnchor(s.anchors, k)
  }

  /** An anchored row is at or below the last event of some stored job anchor. */
  ghost predicate CoveredRow(anchors: seq<S.Anchor>, e: Event)
  {
    e.anchored ==> exists i :: 0 <= i < |anchors| && FromJob(anchors[i]) && KeyAtMost(KeyOf(e), Key(anchors[i].lastTS, anchors[i].lastID))
  }

  ghost predicate AnchorsInv(s: State)
  {
    && (forall i :: 0 <= i < |s.anchors| ==> TrueAnchor(s.rows, s.anchors[i]))
    && (forall j :: j in s.jobs ==> TrueJob(s, s.jobs[j]))
    && (forall i :: 0 <= i < |s.rows| ==> CoveredRow(s.anchors, s.rows[i]))
    && CountAnchored(s.rows) == s.marked
  }

  /** Rows are never lost, and only their flags change. */
  ghost predicate RowsPersist(a: seq<Event>, b: seq<Event>)
  {
    forall i :: 0 <= i < |a| ==> StillThere(b, a[i])
  }

  lemma TrueAnchorKept(a: seq<Event>, b: seq<Event>, an: S.Anchor)
    requires RowsPersist(a, b) && TrueAnchor(a, an)
    ensures TrueAnchor(b, an)
  {
  }

  lemma StillThereKept(a: seq<Event>, b: seq<Event>, e: Event)
    requires RowsPersist(a, b) && StillThere(a, e)
    ensures StillThere(b, e)
  {
  }

  lemma InsertPersists(rows: seq<Event>, e: Event)
    ensures RowsPersist(rows, InsertSorted(rows, e))
  {
    var p, out := Slot(rows, KeyOf(e)), InsertSorted(rows, e);
    forall i | 0 <= i < |rows|
      ensures StillThere(out, rows[i])
    {
      SameButFlagsReflexive(rows[i]);
      assert out[if i < p then i else i + 1] == rows[i];
    }
  }

  lemma SamePersists(a: seq<Event>, b: seq<Event>)
    requires SameRowsButFlags(a, b)
    ensures RowsPersist(a, b)
  {
  }

  /** What the anchor invariant needs of a step that only adds or reflags rows. */
  lemma AnchorsKept(s: State, t: State)
    requires AnchorsInv(s) && RowsPersist(s.rows, t.rows) && t.anchors == s.anchors
    requires forall j :: j in t.jobs ==> j in s.jobs && t.jobs[j] == s.jobs[j]
    requires CountAnchored(t.rows) == t.marked
    requires forall i :: 0 <= i < |t.rows| ==> CoveredRow(t.anchors, t.rows[i])
    ensures AnchorsInv(t)
  {
    hide CoveredRow, RowsPersist, CountAnchored, StillThere;
    forall i | 0 <= i < |t.anchors|
      ensures TrueAnchor(t.rows, t.anchors[i])
    {
      assert TrueAnchor(s.rows, s.anchors[i]);
      TrueAnchorKept(s.rows, t.rows, s.anchors[i]);
    }
    forall j | j in t.jobs
      ensures TrueJob(t, t.jobs[j])
    {
      assert TrueJob(s, s.jobs[j]);
      if s.jobs[j].HeadSeen? {
        StillThereKept(s.rows, t.rows, s.jobs[j].head);
      }
    }
  }

  lemma CoveredInsert(anchors: seq<S.Anchor>, rows: seq<Event>, e: Event)
    requires !e.anchored && forall i :: 0 <= i < |rows| ==> CoveredRow(anchors, rows[i])
    ensures forall i :: 0 <= i < |InsertSorted(rows, e)| ==> CoveredRow(anchors, InsertSorted(rows, e)[i])
  {
  }

  lemma AnchorsInsert(s: State, c: nat, row: Event, written: Option<V.Object>)
    requires AnchorsInv(s) && !row.anchored
    ensures AnchorsInv(AfterInsert(s, c, row, written))
  {
    hide CoveredRow, CountAnchored, InsertSorted, HasId, TrueAnchor, TrueJob;
    var t := AfterInsert(s, c, row, written);
    if HasId(s.rows, row.sealed.id) {
      AnchorsIgnoreCalls(s, t);
    } else {
      InsertPersists(s.rows, row);
      CountAnchoredInsert(s.rows, row);
      CoveredInsert(s.anchors, s.rows, row);
      AnchorsKept(s, t);
    }
  }

  lemma AnchorsIgnoreCalls(s: State, t: State)
    requires AnchorsInv(s) && t.rows == s.rows && t.anchors == s.anchors && t.jobs == s.jobs && t.marked == s.marked
    ensures AnchorsInv(t)
  {
  }

  lemma AnchorsHold(s: State, id: Bytes, hold: bool)
    requires AnchorsInv(s)
    ensures AnchorsInv(s.(rows := SetHold(s.rows, id, hold)))
  {
    hide CountAnchored, KeyAtMost, TrueAnchor, TrueJob, SameButFlags, RowsPersist;
    var t := s.(rows := SetHold(s.rows, id, hold));
    SamePersists(s.rows, t.rows);
    CountAnchoredHold(s.rows, id, hold);
    forall i | 0 <= i < |t.rows|
      ensures CoveredRow(t.anchors, t.rows[i])
    {
      assert CoveredRow(s.anchors, s.rows[i]) && t.rows[i].anchored == s.rows[i].anchored && KeyOf(t.rows[i]) == KeyOf(s.rows[i]);
    }
    AnchorsKept(s, t);
  }

  lemma AnchorsMark(s: State, j: nat, k: Key)
    requires AnchorsInv(s) && HasAnchor(s.anchors, k)
    ensures AnchorsInv(AfterMark(s, j, k))
  {
    hide CountAnchored, NewlyMarked, KeyAtMost, TrueAnchor, TrueJob, RowsPersist;
    var t := AfterMark(s, j, k);
    SamePersists(s.rows, t.rows);
    MarkingCounts(s.rows, k);
    forall i | 0 <= i < |t.rows|
      ensures CoveredRow(t.anchors, t.rows[i])
    {
      assert CoveredRow(s.anchors, s.rows[i]) && KeyOf(t.rows[i]) == KeyOf(s.rows[i]);
    }
    AnchorsKept(s, t);
  }

  lemma HasAnchorGrows(anchors: seq<S.Anchor>, a: S.Anchor, k: Key)
    requires HasAnchor(anchors, k)
    ensures HasAnchor(anchors + [a], k)
  {
    var i :| 0 <= i < |anchors| && FromJob(anchors[i]) && Key(anchors[i].lastTS, anchors[i].lastID) == k;
    assert (anchors + [a])[i] == anchors[i];
  }

  lemma CoveredGrows(anchors: seq<S.Anchor>, a: S.Anchor, e: Event)
    requires CoveredRow(anchors, e)
    ensures CoveredRow(anchors + [a], e)
  {
    hide KeyAtMost;
    if e.anchored {
      var i :| 0 <= i < |anchors| && FromJob(anchors[i]) && KeyAtMost(KeyOf(e), Key(anchors[i].lastTS, anchors[i].lastID));
      assert (anchors + [a])[i] == anchors[i];
    }
  }

  /** Storing one more true anchor. */
  lemma AnchorsAppend(s: State, t: State, a: S.Anchor)
    requires AnchorsInv(s) && TrueAnchor(s.rows, a)
    requires t.rows == s.rows && t.marked == s.marked && t.anchors == s.anchors + [a]
    requires forall j :: j in t.jobs ==> (j in s.jobs && t.jobs[j] == s.jobs[j]) || TrueJob(t, t.jobs[j])
    ensures AnchorsInv(t)
  {
    hide CoveredRow, CountAnchored, TrueAnchor, HasAnchor, StillThere;
    forall j | j in t.jobs
      ensures TrueJob(t, t.jobs[j])
    {
      if j in s.jobs && t.jobs[j] == s.jobs[j] {
        assert TrueJob(s, s.jobs[j]);
        if s.jobs[j].AnchorStored? {
          HasAnchorGrows(s.anchors, a, s.jobs[j].upTo);
        }
      }
    }
    forall i | 0 <= i < |t.rows|
      ensures CoveredRow(t.anchors, t.rows[i])
    {
      assert CoveredRow(s.anchors, s.rows[i]);
      CoveredGrows(s.anchors, a, s.rows[i]);
    }
  }

  lemma AnchorsJobAnchor(s: State, j: nat, id: Bytes, sig: (Bytes, Bytes))
    requires AnchorsInv(s) && j in s.jobs && s.jobs[j].HeadSeen?
    ensures AnchorsInv(AfterAnchor(s, j, s.jobs[j].head, id, sig))
  {
    hide CoveredRow, CountAnchored;
    var head := s.jobs[j].head;
    var a := S.AnchorFor(head, sig).(id := id, anchoredAt := s.now);
    var t := AfterAnchor(s, j, head, id, sig);
    assert TrueJob(s, s.jobs[j]);
    var i :| 0 <= i < |s.rows| && SameButFlags(head, s.rows[i]);
    assert KeyOf(s.rows[i]) == KeyOf(head) && s.rows[i].thisHash == head.thisHash;
    assert TrueAnchor(s.rows, a);
    assert t.anchors[|s.anchors|] == a && HasAnchor(t.anchors, KeyOf(head));
    AnchorsAppend(s, t, a);
  }

  lemma HeadIsTrue(cfg: Config, s: State, t: State)
    requires RowsInv(cfg, s) && s.rows != [] && t.rows == s.rows
    ensures TrueJob(t, HeadSeen(s.rows[|s.rows| - 1]))
  {
  }

  lemma ExportAnchorTrue(rows: seq<Event>, a: S.Anchor)
    ensures TrueAnchor(rows, a.(lastID := []))
  {
  }

  lemma MarkedJobHasAnchor(s: State, j: nat)
    requires AnchorsInv(s) && j in s.jobs && s.jobs[j].AnchorStored?
    ensures HasAnchor(s.anchors, s.jobs[j].upTo)
  {
  }

  lemma AnchorsJob(cfg: Config, s: State, j: nat, action: JobAction)
    requires RowsInv(cfg, s) && AnchorsInv(s)
    ensures AnchorsInv(AfterJob(s, j, action))
  {
    hide RowsInv, AnchorsInv, TrueJob, AfterMark, AfterAnchor;
    var t := AfterJob(s, j, action);
    if action.SeeHead? && j !in s.jobs && s.rows != [] {
      HeadIsTrue(cfg, s, t);
      AnchorsNewJob(s, t, j);
    } else if j in s.jobs && action.StoreAnchor? && s.jobs[j].HeadSeen? {
      AnchorsJobAnchor(s, j, action.id, action.sig);
    } else if j in s.jobs && action.MarkRows? && s.jobs[j].AnchorStored? {
      MarkedJobHasAnchor(s, j);
      AnchorsMark(s, j, s.jobs[j].upTo);
    } else if j in s.jobs && action.JobFails? {
      AnchorsNewJob(s, t, j);
    }
  }

  lemma AnchorsStep(cfg: Config, s: State, step: Step)
    requires RowsInv(cfg, s) && AnchorsInv(s)
    ensures AnchorsInv(After(cfg, s, step))
  {
    hide AnchorsInv, AfterCall, AfterJob, AfterInsert, Table, SoundRow, SoundPrepared;
    var t := After(cfg, s, step);
    match step
    case OfCall(c, action) =>
      CallFrame(cfg, s, c, action);
      if action.Insert? && c in s.calls && s.calls[c].PayloadDone? {
        assert SoundCall(cfg, s.calls[c]);
        AnchorsInsert(s, c, s.calls[c].row, s.calls[c].written);
      } else {
        AnchorsIgnoreCalls(s, t);
      }
    case OfJob(j, action) => AnchorsJob(cfg, s, j, action);
    case ExportAnchor(a) =>
      ExportAnchorTrue(s.rows, a);
      AnchorsAppend(s, t, a.(lastID := []));
    case Hold(id, hold) => AnchorsHold(s, id, hold);
    case _ => AnchorsIgnoreCalls(s, t);
  }

  lemma AnchorsNewJob(s: State, t: State, j: nat)
    requires AnchorsInv(s) && t.rows == s.rows && t.anchors == s.anchors && t.marked == s.marked
    requires forall i :: i in t.jobs && i != j ==> i in s.jobs && t.jobs[i] == s.jobs[i]
    requires j in t.jobs ==> TrueJob(t, t.jobs[j])
    ensures AnchorsInv(t)
  {
  }

  // ---- all invariants, over every run ----

  ghost predicate Inv(cfg: Config, s: State)
  {
    RowsInv(cfg, s) && LinksInv(s) && PayloadsInv(cfg, s) && AnchorsInv(s)
  }

  lemma StepKeepsInv(cfg: Config, s: State, step: Step)
    requires Inv(cfg, s)
    ensures Inv(cfg, After(cfg, s, step))
  {
    hide RowsInv, LinksInv, PayloadsInv, AnchorsInv, After;
    RowsStep(cfg, s, step);
    LinksStep(cfg, s, step);
    PayloadsStep(cfg, s, step);
    AnchorsStep(cfg, s, step);
  }

  lemma {:induction false} RunKeepsInv(cfg: Config, s: State, steps: seq<Step>)
    requires Inv(cfg, s)
    ensures Inv(cfg, Run(cfg, s, steps))
    decreases |steps|
  {
    if steps != [] {
      hide Inv, After;
      StepKeepsInv(cfg, s, steps[0]);
      RunKeepsInv(cfg, After(cfg, s, steps[0]), steps[1..]);
    }
  }

  lemma ReachableInv(cfg: Config, now: Time, steps: seq<Step>)
    ensures Inv(cfg, Run(cfg, Start(now), steps))
  {
    RunKeepsInv(cfg, Start(now), steps);
  }
}

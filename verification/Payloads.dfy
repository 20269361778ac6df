/** The payload objects behind stored rows, over every run and every interleaving. */
module Payloads {
  import opened ByteStrings
  import opened Events
  import opened Chain
  import opened Rows
  import opened Ingest
  import opened AuditSystem
  import A = Arrival
  import V = Vault

  // ---- the object-store operations of a run ----

  /** The object-store operation a step performs, if any. */
  ghost function StepOp(cfg: Config, s: State, step: Step): V.Op
  {
    match step
    case OfCall(c, PutPayload) => PutOf(cfg, s, c)
    case OfCall(c, PutFails(true)) => PutOf(cfg, s, c)
    case ObjectOp(op) => op
    case _ => V.Op.Idle
  }

  ghost function PutOf(cfg: Config, s: State, c: nat): V.Op
  {
    if c in s.calls && s.calls[c].HeadRead? && WritesPayload(cfg, s.calls[c].p)
    then V.Op.Put(PathFor(cfg, s.calls[c].p), s.calls[c].p.body, OptionsFor(cfg))
    else V.Op.Idle
  }

  /** The object-store operations of a run, each at its time. */
  ghost function Trace(cfg: Config, s: State, steps: seq<Step>): seq<(Time, V.Op)>
    decreases |steps|
  {
    if steps == [] then [] else [(s.now, StepOp(cfg, s, steps[0]))] + Trace(cfg, After(cfg, s, steps[0]), steps[1..])
  }

  /** Refused or not, a put leaves what the object store's put leaves. */
  lemma PutObjects(cfg: Config, s: State, c: nat, p: Prepared, prev: Bytes)
    ensures AfterPut(cfg, s, c, p, prev).objects == AfterPayload(cfg, s.objects, p, s.now)
  {
    hide V.MayPut, V.NewObject, RowFor;
    RefusedPutChangesNothing(s.objects, PathFor(cfg, p), p.body, OptionsFor(cfg), s.now);
  }

  lemma CallObjects(cfg: Config, s: State, c: nat, action: CallAction)
    ensures AfterCall(cfg, s, c, action).objects == V.ApplyOp(s.objects, StepOp(cfg, s, OfCall(c, action)), s.now)
  {
    hide Prepare, PrevHashFor, AfterPut, AfterInsert, V.PutObject, V.DeleteObject, V.TransitionObjects;
    if c in s.calls && s.calls[c].PayloadDone? {
      InsertFrame(s, c, s.calls[c].row, s.calls[c].written);
    } else if c in s.calls && s.calls[c].HeadRead? {
      PutObjects(cfg, s, c, s.calls[c].p, s.calls[c].prev);
    }
  }

  lemma StepObjects(cfg: Config, s: State, step: Step)
    ensures After(cfg, s, step).objects == V.ApplyOp(s.objects, StepOp(cfg, s, step), s.now)
  {
    hide AfterCall, AfterJob, V.PutObject, V.DeleteObject, V.TransitionObjects;
    match step
    case OfJob(j, action) => JobFrame(s, j, action);
    case OfCall(c, action) => CallObjects(cfg, s, c, action);
    case _ =>
  }

  lemma {:induction false} TraceObjects(cfg: Config, s: State, steps: seq<Step>)
    ensures V.RunOps(s.objects, Trace(cfg, s, steps)) == Run(cfg, s, steps).objects
    decreases |steps|
  {
    if steps != [] {
      hide After, StepOp, V.ApplyOp;
      StepObjects(cfg, s, steps[0]);
      TraceObjects(cfg, After(cfg, s, steps[0]), steps[1..]);
      var rest := Trace(cfg, After(cfg, s, steps[0]), steps[1..]);
      assert Trace(cfg, s, steps)[1..] == rest;
    }
  }

  // ---- every row's own put ----

  /** This object was put for this id, with the configured options, at the time it records. */
  ghost predicate Traced(cfg: Config, ops: seq<(Time, V.Op)>, id: Bytes, w: V.Object)
  {
    && w == V.NewObject(w.body, OptionsFor(cfg), w.createdAt)
    && exists k :: 0 <= k < |ops| && ops[k] == PutFor(cfg, id, w)
  }

  function PutFor(cfg: Config, id: Bytes, w: V.Object): (Time, V.Op)
  {
    (w.createdAt, V.Op.Put(V.Path(cfg.bucket, id), w.body, OptionsFor(cfg)))
  }

  ghost predicate TracedCall(cfg: Config, ops: seq<(Time, V.Op)>, c: Call)
  {
    c.PayloadDone? && c.written.Some? ==> Traced(cfg, ops, c.row.sealed.id, c.written.value)
  }

  ghost predicate TracedInv(cfg: Config, ops: seq<(Time, V.Op)>, s: State)
  {
    && (forall id :: id in s.writes ==> Traced(cfg, ops, id, s.writes[id]))
    && (forall c :: c in s.calls ==> TracedCall(cfg, ops, s.calls[c]))
  }

  lemma TracedLater(cfg: Config, ops: seq<(Time, V.Op)>, op: (Time, V.Op), id: Bytes, w: V.Object)
    requires Traced(cfg, ops, id, w)
    ensures Traced(cfg, ops + [op], id, w)
  {
    hide V.NewObject, PutFor;
    var k :| 0 <= k < |ops| && ops[k] == PutFor(cfg, id, w);
    assert (ops + [op])[k] == ops[k];
  }

  lemma TracedCallLater(cfg: Config, ops: seq<(Time, V.Op)>, op: (Time, V.Op), c: Call)
    requires TracedCall(cfg, ops, c)
    ensures TracedCall(cfg, ops + [op], c)
  {
    hide Traced;
    if c.PayloadDone? && c.written.Some? {
      TracedLater(cfg, ops, op, c.row.sealed.id, c.written.value);
    }
  }

  /** What a put step leaves in the call is what it put. */
  lemma PutTraced(cfg: Config, ops: seq<(Time, V.Op)>, s: State, c: nat, p: Prepared, prev: Bytes)
    requires c in s.calls && s.calls[c] == HeadRead(p, prev)
    ensures var t := AfterPut(cfg, s, c, p, prev);
            c in t.calls ==> TracedCall(cfg, ops + [(s.now, PutOf(cfg, s, c))], t.calls[c])
  {
    hide V.MayPut, V.PutObject;
    var t, op := AfterPut(cfg, s, c, p, prev), (s.now, PutOf(cfg, s, c));
    if c in t.calls && t.calls[c].written.Some? {
      assert (ops + [op])[|ops|] == PutFor(cfg, p.id, t.calls[c].written.value);
    }
  }

  /** A step that leaves the writes alone and starts or ends calls without a write. */
  lemma NothingWritten(cfg: Config, ops: seq<(Time, V.Op)>, op: (Time, V.Op), s: State, t: State)
    requires TracedInv(cfg, ops, s) && t.writes == s.writes
    requires forall c :: c in t.calls ==> (c in s.calls && t.calls[c] == s.calls[c]) || TracedCall(cfg, ops + [op], t.calls[c])
    ensures TracedInv(cfg, ops + [op], t)
  {
    hide Traced, TracedCall;
    forall id | id in t.writes
      ensures Traced(cfg, ops + [op], id, t.writes[id])
    {
      TracedLater(cfg, ops, op, id, s.writes[id]);
    }
    forall c | c in t.calls
      ensures TracedCall(cfg, ops + [op], t.calls[c])
    {
      if c in s.calls && t.calls[c] == s.calls[c] {
        TracedCallLater(cfg, ops, op, s.calls[c]);
      }
    }
  }

  lemma InsertTraced(cfg: Config, ops: seq<(Time, V.Op)>, op: (Time, V.Op), s: State, c: nat, row: Event, written: Option<V.Object>)
    requires TracedInv(cfg, ops, s) && TracedCall(cfg, ops, PayloadDone(row, written))
    ensures TracedInv(cfg, ops + [op], AfterInsert(s, c, row, written))
  {
    hide Traced, HasId, InsertSorted;
    var t := AfterInsert(s, c, row, written);
    forall id | id in t.writes
      ensures Traced(cfg, ops + [op], id, t.writes[id])
    {
      TracedLater(cfg, ops, op, id, t.writes[id]);
    }
    forall d | d in t.calls
      ensures TracedCall(cfg, ops + [op], t.calls[d])
    {
      TracedCallLater(cfg, ops, op, s.calls[d]);
    }
  }

  lemma StepTraced(cfg: Config, ops: seq<(Time, V.Op)>, s: State, step: Step)
    requires TracedInv(cfg, ops, s)
    ensures TracedInv(cfg, ops + [(s.now, StepOp(cfg, s, step))], After(cfg, s, step))
  {
    hide TracedInv, AfterJob, AfterCall, StepOp;
    match step
    case OfCall(c, action) => CallTraced(cfg, ops, s, c, action);
    case OfJob(j, action) =>
      JobFrame(s, j, action);
      NothingWritten(cfg, ops, (s.now, StepOp(cfg, s, step)), s, After(cfg, s, step));
    case _ => NothingWritten(cfg, ops, (s.now, StepOp(cfg, s, step)), s, After(cfg, s, step));
  }

  lemma CallTraced(cfg: Config, ops: seq<(Time, V.Op)>, s: State, c: nat, action: CallAction)
    requires TracedInv(cfg, ops, s)
    ensures TracedInv(cfg, ops + [(s.now, StepOp(cfg, s, OfCall(c, action)))], AfterCall(cfg, s, c, action))
  {
    hide Prepare, PrevHashFor, Traced, AfterInsert, AfterPut, AfterPayload, PutOf;
    var op, t := (s.now, StepOp(cfg, s, OfCall(c, action))), AfterCall(cfg, s, c, action);
    if c in s.calls && s.calls[c].HeadRead? && action.PutPayload? {
      PutTraced(cfg, ops, s, c, s.calls[c].p, s.calls[c].prev);
      PutFrame(cfg, s, c);
      OtherCalls(cfg, s, c, s.calls[c].p, s.calls[c].prev);
      NothingWritten(cfg, ops, op, s, t);
    } else if c in s.calls && s.calls[c].PayloadDone? && action.Insert? {
      assert TracedCall(cfg, ops, s.calls[c]);
      InsertTraced(cfg, ops, op, s, c, s.calls[c].row, s.calls[c].written);
    } else {
      NothingWritten(cfg, ops, op, s, t);
    }
  }

  lemma OtherCalls(cfg: Config, s: State, c: nat, p: Prepared, prev: Bytes)
    ensures var t := AfterPut(cfg, s, c, p, prev);
            forall d :: d in t.calls && d != c ==> d in s.calls && t.calls[d] == s.calls[d]
  {
    hide V.MayPut, RowFor, AfterPayload;
  }

  lemma {:induction false} RunTraced(cfg: Config, ops: seq<(Time, V.Op)>, s: State, steps: seq<Step>)
    requires TracedInv(cfg, ops, s)
    ensures TracedInv(cfg, ops + Trace(cfg, s, steps), Run(cfg, s, steps))
    decreases |steps|
  {
    hide TracedInv, After, StepOp;
    if steps == [] {
      assert ops + Trace(cfg, s, steps) == ops;
    } else {
      var op := (s.now, StepOp(cfg, s, steps[0]));
      StepTraced(cfg, ops, s, steps[0]);
      RunTraced(cfg, ops + [op], After(cfg, s, steps[0]), steps[1..]);
      assert ops + [op] + Trace(cfg, After(cfg, s, steps[0]), steps[1..]) == ops + Trace(cfg, s, steps);
    }
  }

  // ---- payload integrity ----

  /** The put at this time is still in force: by the configured hold, or because fewer than
      the configured days have passed. */
  predicate StillProtected(cfg: Config, at: Time, now: Time)
  {
    cfg.legalHoldDefault || (0 < cfg.retentionDays <= 106751 && now < at + cfg.retentionDays * 86_400_000_000_000)
  }

  /** Every stored row with a payload reference goes back to a put of its own ingest call,
      of a body with the recorded hash unless it was redacted; and as long as the configured
      hold or days protect that put, this body is under the reference: across redeliveries,
      same-id messages with other bodies, failed puts and inserts, deletes and moves. */
  lemma PayloadIntegrity(cfg: Config, now: Time, steps: seq<Step>, i: nat)
    requires i < |Run(cfg, Start(now), steps).rows|
    ensures var s, ops := Run(cfg, Start(now), steps), Trace(cfg, Start(now), steps);
            var row, path := s.rows[i], V.Path(cfg.bucket, s.rows[i].sealed.id);
            row.payloadRef != [] ==>
              && row.payloadRef == row.sealed.id
              && exists k :: 0 <= k < |ops| && ops[k].1.Put? && ops[k].1.path == path
                   && (!row.redacted ==> cfg.sha(ops[k].1.body) == row.sealed.payloadHash)
                   && (StillProtected(cfg, ops[k].0, s.now) ==> path in s.objects && s.objects[path].body == ops[k].1.body)
  {
    hide Run, RowsInv, LinksInv, AnchorsInv, Trace;
    ReachableInv(cfg, now, steps);
    RunTraced(cfg, [], Start(now), steps);
    var s, ops := Run(cfg, Start(now), steps), Trace(cfg, Start(now), steps);
    assert [] + ops == ops;
    var row, path := s.rows[i], V.Path(cfg.bucket, s.rows[i].sealed.id);
    assert BackedRow(cfg, s, row);
    if row.payloadRef != [] {
      var w := s.writes[row.sealed.id];
      assert Traced(cfg, ops, row.sealed.id, w);
      var k :| 0 <= k < |ops| && ops[k] == PutFor(cfg, row.sealed.id, w);
      if StillProtected(cfg, ops[k].0, s.now) {
        ProtectedIsRetained(cfg, w, s.now);
      }
      assert ops[k].1.Put? && ops[k].1.path == path;
    }
  }

  lemma ProtectedIsRetained(cfg: Config, w: V.Object, now: Time)
    requires w == V.NewObject(w.body, OptionsFor(cfg), w.createdAt) && StillProtected(cfg, w.createdAt, now)
    ensures V.Retained(w, now)
  {
  }

  /** Once that retention has lapsed, a same-id message may replace the payload. A put
      leaves a matching payload matching if and only if the object in place is still
      retained, or the new body happens to have the recorded hash. */
  lemma PutKeepsPayloadIff(cfg: Config, objects: V.Objects, row: Event, p: Prepared, now: Time)
    requires WritesPayload(cfg, p) && p.id == row.sealed.id && PathFor(cfg, p) in objects
    requires cfg.sha(objects[PathFor(cfg, p)].body) == row.sealed.payloadHash
    ensures cfg.sha(AfterPayload(cfg, objects, p, now)[PathFor(cfg, p)].body) == row.sealed.payloadHash
            <==> V.Retained(objects[PathFor(cfg, p)], now) || cfg.sha(p.body) == row.sealed.payloadHash
  {
  }

  ghost predicate HasDigest(cfg: Config, objects: V.Objects, path: Bytes, digest: Bytes)
  {
    path in objects && cfg.sha(objects[path].body) == digest
  }

  /** Over every run, in every interleaving and whatever is retained: the object under a
      row's reference has the recorded hash if and only if the last operation that changed
      this object was a put of a body with this hash. */
  lemma PayloadMatchesIffLastWrite(cfg: Config, now: Time, steps: seq<Step>, row: Event)
    ensures var ops, path := Trace(cfg, Start(now), steps), V.Path(cfg.bucket, row.sealed.id);
            HasDigest(cfg, Run(cfg, Start(now), steps).objects, path, row.sealed.payloadHash)
            <==> exists i :: 0 <= i < |ops| && ops[i].1.Put? && cfg.sha(ops[i].1.body) == row.sealed.payloadHash
                             && V.LastWrite(map[], ops, |ops|, path, ops[i].1.body, i)
  {
    hide Run, Trace, V.RunOps, V.Changes;
    var ops, path, digest := Trace(cfg, Start(now), steps), V.Path(cfg.bucket, row.sealed.id), row.sealed.payloadHash;
    TraceObjects(cfg, Start(now), steps);
    assert ops[..|ops|] == ops;
    var objects := Run(cfg, Start(now), steps).objects;
    assert objects == V.RunOps(map[], ops);
    if HasDigest(cfg, objects, path, digest) {
      V.StoredIffLastWritten(map[], ops, |ops|, path, objects[path].body);
    }
    if i :| 0 <= i < |ops| && ops[i].1.Put? && cfg.sha(ops[i].1.body) == digest
            && V.LastWrite(map[], ops, |ops|, path, ops[i].1.body, i) {
      V.StoredIffLastWritten(map[], ops, |ops|, path, ops[i].1.body);
    }
  }

  /** So the promise cannot be stated of whatever object is under the reference now:
      two messages with one id and different payloads, the second after the first
      one's retention has run out, leave a row whose payload object has another hash. */
  lemma LapsedRedeliveryReplacesPayload(cfg: Config, m1: A.Message, m2: A.Message)
    requires Prepare(cfg, m1.0).Ready? && Prepare(cfg, m2.0).Ready?
    requires var p1, p2 := Prepare(cfg, m1.0).p, Prepare(cfg, m2.0).p;
             && p1.id == p2.id && p1.payloadHash != p2.payloadHash && !p1.redacted && !p2.redacted
             && WritesPayload(cfg, p1) && WritesPayload(cfg, p2)
             && !V.Retained(V.NewObject(p1.body, OptionsFor(cfg), m1.1), m2.1)
    ensures var st, path := A.Run(cfg, [m1, m2]), PathFor(cfg, Prepare(cfg, m1.0).p);
            && |st.rows| == 1 && st.rows[0].payloadRef == st.rows[0].sealed.id && !st.rows[0].redacted
            && V.Path(cfg.bucket, st.rows[0].sealed.id) == path
            && path in st.objects && cfg.sha(st.objects[path].body) != st.rows[0].sealed.payloadHash
  {
    hide Prepare, V.Retained;
    var p1, p2 := Prepare(cfg, m1.0).p, Prepare(cfg, m2.0).p;
    PreparedIsSound(cfg, m1.0);
    PreparedIsSound(cfg, m2.0);
    A.RunStep(cfg, [m1]);
    A.RunStep(cfg, [m1, m2]);
    assert [m1][..0] == [] && [m1, m2][..1] == [m1];
    var st1 := A.Run(cfg, [m1]);
    assert st1.rows == [RowFor(cfg, p1, ZERO_HASH)];
    assert st1.rows[0].sealed.id == p2.id;
    assert st1.objects == map[PathFor(cfg, p1) := V.NewObject(p1.body, OptionsFor(cfg), m1.1)];
  }
}

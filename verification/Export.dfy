/** Regulator exports: the job runner, and what the chain root it records means. */
module Export {
  import opened ByteStrings
  import opened Events
  import opened Chain
  import opened Rows
  import opened Paging
  import M = MemStore
  import S = Sweep
  import V = Vault

  // ---- the chain root of an export ----

  /** The root of the exported rows if they verify, and the genesis sentinel otherwise. */
  ghost function ExportRoot(hash: EventHash, es: seq<Event>): Bytes
  {
    if Intact(hash, es) && |RootOf(es)| == 32 then RootOf(es) else ZERO_HASH
  }

  /** The exported rows are one unbroken stretch of the table. */
  ghost predicate Contiguous(rows: seq<Event>, es: seq<Event>)
  {
    exists lo, hi :: 0 <= lo <= hi <= |rows| && es == rows[lo..hi]
  }

  /** A selection as positions in the table. */
  lemma {:induction false} SelectIsPick(rows: seq<Event>, f: Filter) returns (idx: seq<nat>)
    ensures Increasing(idx) && forall j :: 0 <= j < |idx| ==> idx[j] < |rows|
    ensures Select(rows, f) == Pick(rows, idx)
  {
    hide Select, Pick, Wanted;
    SelectLast(rows, f);
    idx := [];
    if rows == [] {
      assert Pick(rows, idx) == [];
    } else {
      var n := |rows| - 1;
      var front := SelectIsPick(rows[..n], f);
      PickOfPrefix(rows, n, front);
      idx := front;
      if Wanted(f, rows[n]) {
        idx := front + [n];
        PickSnoc(rows, front, n);
      }
    }
  }

  lemma PickOfPrefix(rows: seq<Event>, n: nat, idx: seq<nat>)
    requires n <= |rows| && forall j :: 0 <= j < |idx| ==> idx[j] < n
    ensures Pick(rows[..n], idx) == Pick(rows, idx)
  {
  }

  lemma PickSnoc(rows: seq<Event>, idx: seq<nat>, n: nat)
    requires n < |rows| && forall j :: 0 <= j < |idx| ==> idx[j] < |rows|
    ensures Pick(rows, idx + [n]) == Pick(rows, idx) + [rows[n]]
  {
  }

  lemma {:induction false} ConsecutiveOffset(idx: seq<nat>, j: nat)
    requires Consecutive(idx) && j < |idx|
    ensures idx[j] == idx[0] + j
  {
    if j > 0 {
      ConsecutiveOffset(idx, j - 1);
    }
  }

  lemma ConsecutivePickIsSlice(rows: seq<Event>, idx: seq<nat>)
    requires Consecutive(idx) && forall j :: 0 <= j < |idx| ==> idx[j] < |rows|
    ensures Contiguous(rows, Pick(rows, idx))
  {
    hide Consecutive;
    var p := Pick(rows, idx);
    if idx == [] {
      assert p == rows[0..0];
    } else {
      ConsecutiveOffset(idx, |idx| - 1);
      var s := rows[idx[0]..idx[0] + |idx|];
      forall j | 0 <= j < |idx|
        ensures p[j] == s[j]
      {
        ConsecutiveOffset(idx, j);
      }
      assert p == s;
    }
  }

  /** Of an intact table, a filtered export carries a real chain root exactly when the
      rows it matched are non-empty and contiguous. */
  lemma ExportRootRealIff(hash: EventHash, rows: seq<Event>, f: Filter)
    requires Intact(hash, rows) && DistinctIds(rows) && Faithful(hash, rows) && NoneHashesToZero(hash, rows)
    ensures var es := Select(rows, f);
            && (ExportRoot(hash, es) != ZERO_HASH <==> es != [] && Contiguous(rows, es))
            && (es != [] && Contiguous(rows, es) ==> ExportRoot(hash, es) == es[|es| - 1].thisHash)
  {
    hide Select, Wanted, Pick, Intact, Consecutive, Increasing, Faithful, NoneHashesToZero, DistinctIds;
    var es := Select(rows, f);
    var idx := SelectIsPick(rows, f);
    SubsequenceAcceptedIffContiguous(hash, rows, idx);
    if Consecutive(idx) {
      ConsecutivePickIsSlice(rows, idx);
    }
    if Contiguous(rows, es) {
      var lo, hi :| 0 <= lo <= hi <= |rows| && es == rows[lo..hi];
      IntactSlice(hash, rows, lo, hi);
    }
    if es != [] {
      LastIsReal(hash, rows, es[|es| - 1]);
    }
  }

  lemma LastIsReal(hash: EventHash, rows: seq<Event>, e: Event)
    requires Intact(hash, rows) && NoneHashesToZero(hash, rows) && e in rows
    ensures |e.thisHash| == 32 && e.thisHash != ZERO_HASH
  {
  }

  // ---- the job runner ----

  datatype Format = Json | Csv | Unknown

  /** A request: its id, its query as decoded (none if it does not decode), the
      format, and the retention asked for. */
  datatype Job = Job(id: Bytes, query: Option<Filter>, format: Format, retentionDays: int)

  datatype JobRow =
    | Failed
    | Complete(rowCount: nat, payloadRef: Bytes, chainRoot: Bytes, anchorID: Bytes)

  /** "exports/", ".json" and ".csv" */
  const EXPORTS: Bytes := [101, 120, 112, 111, 114, 116, 115, 47]
  const DOT_JSON: Bytes := [46, 106, 115, 111, 110]
  const DOT_CSV: Bytes := [46, 99, 115, 118]

  function ExportKey(job: Job): Bytes
  {
    EXPORTS + job.id + if job.format == Csv then DOT_CSV else DOT_JSON
  }

  /** Where an artifact is stored. */
  lemma KeySpelled(job: Job)
    ensures var key := ExportKey(job);
            var suffix := if job.format == Csv then ".csv" else ".json";
            && |key| == 8 + |job.id| + |suffix| && Spells(key[..8], "exports/")
            && key[8..8 + |job.id|] == job.id && Spells(key[8 + |job.id|..], suffix)
  {
    var key := ExportKey(job);
    assert key[..8] == EXPORTS && key[8..8 + |job.id|] == job.id;
    assert key[8 + |job.id|..] == if job.format == Csv then DOT_CSV else DOT_JSON;
  }

  function EffectiveRetention(asked: int, default: int): (days: int)
    ensures days > 0 && (asked > 0 ==> days == asked)
    ensures asked <= 0 ==> days == if default > 0 then default else 2555
  {
    if asked > 0 then asked else if default > 0 then default else 2555
  }

  /** Serialization of rows, root and anchor id into the artifact written. */
  type Artifact = (Job, seq<Event>, Bytes, Bytes) -> Bytes

  class Runner {
    const events: M.EventStore
    const anchors: S.AnchorStore
    const payloads: V.Fake
    var jobs: map<Bytes, JobRow>

    constructor (e: M.EventStore, a: S.AnchorStore, p: V.Fake)
      ensures events == e && anchors == a && payloads == p && jobs == map[]
    {
      events, anchors, payloads, jobs := e, a, p, map[];
    }

    /** Signs the root and stores the anchor, which names no last event. */
    method AnchorRoot(root: Bytes, sign: S.Signer, newID: Bytes, now: Time) returns (anchorID: Bytes)
      modifies anchors
      ensures anchors.anchors == old(anchors.anchors) + (if sign(root).Some? then [ExportAnchor(root, sign(root).value, newID, now)] else [])
      ensures anchorID == if sign(root).Some? then newID else []
    {
      anchorID := [];
      var signed := sign(root);
      if signed.Some? {
        anchorID := anchors.InsertAnchor(S.Anchor([], ZERO_TIME, root, [], ZERO_TIME, signed.value.0, signed.value.1), newID, now);
      }
    }

    /** One job from start to end. A query that does not decode or an unknown format
        fails the job and changes nothing else. Otherwise the job has read exactly the
        selected rows and, with a signer that signs, stored an anchor that names no
        event. If the artifact cannot be put the job fails, though that anchor stays;
        else the artifact is stored for the retention and the job row says what was
        exported. */
    method RunJob(hash: EventHash, bucket: Bytes, defaultDays: int, sign: S.Signer, artifact: Artifact,
                  job: Job, newID: Bytes, now: Time) returns (row: JobRow)
      requires events.Valid() && payloads.Valid() && Stamped(events.rows)
      modifies `jobs, anchors, payloads
      ensures events.Valid() && payloads.Valid() && events.rows == old(events.rows)
      ensures jobs == old(jobs)[job.id := row]
      ensures job.query == None || job.format == Unknown ==>
                row == Failed && anchors.anchors == old(anchors.anchors) && payloads.vault == old(payloads.vault)
      ensures job.query != None && job.format != Unknown ==>
                var es := Select(events.rows, job.query.value);
                var root := ExportRoot(hash, es);
                var path := V.Path(bucket, ExportKey(job));
                var signed := sign(root);
                var anchorID := if signed.Some? then newID else [];
                && anchors.anchors == old(anchors.anchors) + (if signed.Some? then [ExportAnchor(root, signed.value, newID, now)] else [])
                && (signed.Some? ==>
                      var a := anchors.anchors[|anchors.anchors| - 1];
                      a.root == root && a.lastID == [] && a.id == newID && (a.signature, a.keyID) == signed.value)
                && (row == Failed <==> !V.MayPut(old(payloads.vault), path, now))
                && (row != Failed ==> row == Complete(|es|, ExportKey(job), root, anchorID))
                && payloads.vault == V.PutObject(old(payloads.vault), path, artifact(job, es, root, anchorID),
                                                 V.PutOptions(V.STANDARD, EffectiveRetention(job.retentionDays, defaultDays), false), now)
    {
      hide Table, M.Indexed, Select, Intact, V.PutObject, V.MayPut, Stamped, ExportKey, RootOf, KeyLess, EffectiveRetention;
      row := Failed;
      if job.query == None {
        jobs := jobs[job.id := Failed];
        return;
      }
      var all := S.Collect(events, job.query.value, 10000);
      if job.format == Unknown {
        jobs := jobs[job.id := Failed];
        return;
      }
      var res, verified := VerifyChain(hash, all);
      var root := if verified.Some? && |verified.value| == 32 then verified.value else ZERO_HASH;
      var anchorID := AnchorRoot(root, sign, newID, now);
      var key := ExportKey(job);
      var options := V.PutOptions(V.STANDARD, EffectiveRetention(job.retentionDays, defaultDays), false);
      var put := payloads.Put(bucket, key, options, artifact(job, all, root, anchorID), now);
      if put.Stored? {
        row := Complete(|all|, key, root, anchorID);
      }
      jobs := jobs[job.id := row];
    }
  }

  function ExportAnchor(root: Bytes, sig: (Bytes, Bytes), id: Bytes, now: Time): S.Anchor
  {
    S.Anchor(id, now, root, [], ZERO_TIME, sig.0, sig.1)
  }
}

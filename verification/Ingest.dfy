/** The ingest pipeline: what one message does to the event table, the object store
    and the dead letters, and the code that does it step by step. */
module Ingest {
  import opened ByteStrings
  import opened Events
  import opened Chain
  import opened Rows
  import opened Wire
  import R = Redaction
  import V = Vault
  import M = MemStore

  /** Wiring of a pipeline. `hash` is chain.CanonicalHash over the nine hashed
      fields; an absent redactor is an empty policy; `deadLetters` says whether there
      is a dead-letter sink. */
  datatype Config = Config(
    sha: Sha256, hash: EventHash, decode: Bytes -> Option<Envelope>,
    codec: R.Codec, policy: seq<R.Rule<Bytes>>,
    payloads: bool, bucket: Bytes, storageClass: Bytes, retentionDays: int, legalHoldDefault: bool,
    topic: Bytes, deadLetters: bool)

  datatype Reject = BadEnvelope | PayloadHashMismatch | RedactionFailed | PayloadHashFormat

  /** A message that passed everything up to the chain-head read. */
  datatype Prepared = Prepared(
    id: Bytes, ts: Time, service: Bytes, actor: Bytes, action: Bytes,
    targetType: Bytes, targetID: Bytes, payloadHash: Bytes, body: Bytes, redacted: bool)

  datatype Preparation = Ready(p: Prepared) | Rejected(why: Reject)

  function Outline(ev: Envelope, payloadHash: Bytes, body: Bytes, redacted: bool): Prepared
  {
    Prepared(ev.id, ev.ts, ev.service, ev.actor, ev.action, ev.targetType, ev.targetID, payloadHash, body, redacted)
  }

  /** The steps that touch no store: decode and validate, check the payload hash,
      redact, decode the hash string. The hash kept is that of the payload as sent. */
  ghost function Prepare(cfg: Config, value: Bytes): Preparation
  {
    match cfg.decode(value)
    case None => Rejected(BadEnvelope)
    case Some(ev) =>
      if FirstMissing(ev) != None then Rejected(BadEnvelope)
      else if ev.payload == [] then
        (match DecodeHash(ev.payloadHash)
         case None => Rejected(PayloadHashFormat)
         case Some(h) => Ready(Outline(ev, h, [], false)))
      else if NormalizeHash(ev.payloadHash) != HashPayload(cfg.sha, ev.payload) then Rejected(PayloadHashMismatch)
      else
        match R.ApplyPolicy(cfg.sha, cfg.codec, cfg.policy, ev.service, ev.action, ev.payload)
        case BadPayload => Rejected(RedactionFailed)
        case Applied(body, changed) => Ready(Outline(ev, cfg.sha(ev.payload), if changed then body else ev.payload, changed))
  }

  /** What a prepared message guarantees: a usable id and timestamp, a 32-byte
      payload hash, and, unless redacted, a body that has this hash. */
  ghost predicate SoundPrepared(cfg: Config, p: Prepared)
  {
    && p.id != [] && p.ts != ZERO_TIME && |p.payloadHash| == 32
    && (p.body != [] && !p.redacted ==> cfg.sha(p.body) == p.payloadHash)
  }

  lemma PreparedIsSound(cfg: Config, value: Bytes)
    requires Prepare(cfg, value).Ready?
    ensures SoundPrepared(cfg, Prepare(cfg, value).p)
  {
  }

  function SealedFor(p: Prepared, prev: Bytes): Sealed
  {
    Sealed(p.id, p.ts, p.service, p.actor, p.action, p.targetType, p.targetID, p.payloadHash, prev)
  }

  /** prev_hash of the next event: the chain head's this_hash, or genesis. */
  function PrevHashFor(rows: seq<Event>): Bytes
  {
    if rows != [] && |rows[|rows| - 1].thisHash| == 32 then rows[|rows| - 1].thisHash else ZERO_HASH
  }

  function WritesPayload(cfg: Config, p: Prepared): bool
  {
    cfg.payloads && cfg.bucket != [] && p.body != []
  }

  function PathFor(cfg: Config, p: Prepared): Bytes { V.Path(cfg.bucket, p.id) }

  function OptionsFor(cfg: Config): V.PutOptions
  {
    V.PutOptions(cfg.storageClass, cfg.retentionDays, cfg.legalHoldDefault)
  }

  function RowFor(cfg: Config, p: Prepared, prev: Bytes): Event
  {
    var s := SealedFor(p, prev);
    Event(s, cfg.hash(s), if WritesPayload(cfg, p) then p.id else [], p.redacted, false, cfg.legalHoldDefault)
  }

  lemma RowForItself(cfg: Config, p: Prepared, prev: Bytes)
    ensures RowFor(cfg, p, prev).sealed.prevHash == prev
  {
  }

  /** The payload put that precedes the insert. */
  predicate PayloadAccepted(cfg: Config, objects: V.Objects, p: Prepared, now: Time)
  {
    WritesPayload(cfg, p) ==> V.MayPut(objects, PathFor(cfg, p), now)
  }

  function AfterPayload(cfg: Config, objects: V.Objects, p: Prepared, now: Time): V.Objects
  {
    if WritesPayload(cfg, p) then V.PutObject(objects, PathFor(cfg, p), p.body, OptionsFor(cfg), now) else objects
  }

  /** The stores a pipeline writes to, and the rows it inserted in arrival order. */
  datatype Stores = Stores(rows: seq<Event>, objects: V.Objects, log: seq<Event>)

  const EMPTY := Stores([], map[], [])

  datatype Outcome =
    | Refused(why: Reject)
    | HeadFailed
    | PutRefused
    | PutFailed
    | InsertFailed
    | Duplicate
    | Inserted(row: Event)

  /** One message processed from start to end with nothing in between. */
  ghost function Process(cfg: Config, st: Stores, value: Bytes, now: Time): (Stores, Outcome)
  {
    match Prepare(cfg, value)
    case Rejected(why) => (st, Refused(why))
    case Ready(p) =>
      if !PayloadAccepted(cfg, st.objects, p, now) then (st, PutRefused)
      else
        var row := RowFor(cfg, p, PrevHashFor(st.rows));
        var objects := AfterPayload(cfg, st.objects, p, now);
        if HasId(st.rows, p.id) then (st.(objects := objects), Duplicate)
        else (Stores(InsertSorted(st.rows, row), objects, st.log + [row]), Inserted(row))
  }

  // ---- a right digest that is refused ----

  /** A message whose hash string spells the payload's own digest in upper case denotes
      that digest, and is refused as a mismatch if and only if the digest has a hex
      digit that is a letter. */
  lemma UpperCaseDigestRefusedIff(cfg: Config, value: Bytes, ev: Envelope)
    requires cfg.decode(value) == Some(ev) && FirstMissing(ev) == None && ev.payload != []
    requires ev.payloadHash == HASH_PREFIX + UpperCase(EncodeHex(cfg.sha(ev.payload)))
    ensures DecodeHash(ev.payloadHash) == Some(cfg.sha(ev.payload))
    ensures Prepare(cfg, value) == Rejected(PayloadHashMismatch) <==> HasLetterDigit(cfg.sha(ev.payload))
  {
    hide EncodeHex, DecodeHex, UpperCase, R.ApplyPolicy, FirstMissing, HasLetterDigit;
    var d := cfg.sha(ev.payload);
    var s := UpperCase(EncodeHex(d));
    DecodeUpperCase(d);
    UpperCaseSameIff(d);
    assert HASH_PREFIX <= HASH_PREFIX + s && (HASH_PREFIX + s)[7..] == s;
    assert (HASH_PREFIX + EncodeHex(d))[7..] == EncodeHex(d);
  }

  // ---- with store faults ----

  /** The store access that fails, if one does. A failing put may have written. */
  datatype Fault = NoFault | HeadFails | PutFails(wrote: bool) | InsertFails

  /** The payload put: the objects after it, and the outcome if the call ends here. */
  function PutStep(cfg: Config, objects: V.Objects, p: Prepared, now: Time, fault: Fault): (V.Objects, Option<Outcome>)
  {
    if !WritesPayload(cfg, p) then (objects, None)
    else if fault.PutFails? then (if fault.wrote then AfterPayload(cfg, objects, p, now) else objects, Some(PutFailed))
    else if !PayloadAccepted(cfg, objects, p, now) then (objects, Some(PutRefused))
    else (AfterPayload(cfg, objects, p, now), None)
  }

  ghost function InsertStep(st: Stores, row: Event, fault: Fault): (Stores, Outcome)
  {
    if fault.InsertFails? then (st, InsertFailed)
    else if HasId(st.rows, row.sealed.id) then (st, Duplicate)
    else (st.(rows := InsertSorted(st.rows, row), log := st.log + [row]), Inserted(row))
  }

  /** One message processed from start to end while a store may fail. */
  ghost function ProcessWith(cfg: Config, st: Stores, value: Bytes, now: Time, fault: Fault): (Stores, Outcome)
  {
    match Prepare(cfg, value)
    case Rejected(why) => (st, Refused(why))
    case Ready(p) =>
      if fault.HeadFails? then (st, HeadFailed)
      else
        var (objects, end) := PutStep(cfg, st.objects, p, now, fault);
        if end.Some? then (st.(objects := objects), end.value)
        else InsertStep(st.(objects := objects), RowFor(cfg, p, PrevHashFor(st.rows)), fault)
  }

  /** Without a fault that is Process. With one, the table is as if either all of the
      message or nothing of it had been processed, and so are the objects. */
  lemma FaultsOnlyLoseRows(cfg: Config, st: Stores, value: Bytes, now: Time, fault: Fault)
    ensures var out, clean := ProcessWith(cfg, st, value, now, fault), Process(cfg, st, value, now);
            && (fault == NoFault ==> out == clean)
            && ((out.0.rows == st.rows && out.0.log == st.log) || out == clean)
            && (out.0.objects == st.objects || out.0.objects == clean.0.objects)
  {
    hide Prepare, HasId, InsertSorted, V.MayPut;
    if Prepare(cfg, value).Ready? {
      RefusedPutChangesNothing(st.objects, PathFor(cfg, Prepare(cfg, value).p), Prepare(cfg, value).p.body, OptionsFor(cfg), now);
    }
  }

  // ---- what ends up stored, in terms of the message ----

  /** The row has the envelope's fields, each under its own name, and the hash of the
      payload as sent or, without a payload, the hash the envelope gives. */
  ghost predicate Carries(cfg: Config, value: Bytes, row: Event)
  {
    cfg.decode(value).Some? &&
    var ev := cfg.decode(value).value;
    && row.sealed.id == ev.id && row.sealed.ts == ev.ts
    && row.sealed.service == ev.service && row.sealed.actor == ev.actor && row.sealed.action == ev.action
    && row.sealed.targetType == ev.targetType && row.sealed.targetID == ev.targetID
    && (ev.payload != [] ==> row.sealed.payloadHash == cfg.sha(ev.payload))
    && (ev.payload == [] ==> DecodeHash(ev.payloadHash) == Some(row.sealed.payloadHash))
  }

  /** The body that the policy makes of the payload, and whether it is a redacted one. */
  ghost function StoredBody(cfg: Config, ev: Envelope): (Bytes, bool)
  {
    match R.ApplyPolicy(cfg.sha, cfg.codec, cfg.policy, ev.service, ev.action, ev.payload)
    case Applied(body, true) => (body, true)
    case _ => (ev.payload, false)
  }

  /** When a message passes the checks: it decodes, lacks no field, and either has a payload
      that its hash string names and the policy can be applied to, or has none and a hash
      string that decodes. */
  lemma AcceptedIff(cfg: Config, value: Bytes)
    ensures Prepare(cfg, value).Ready? <==>
            cfg.decode(value).Some? &&
            var ev := cfg.decode(value).value;
            && ev.id != [] && ev.ts != ZERO_TIME && ev.service != [] && ev.actor != [] && ev.action != []
            && ev.targetType != [] && ev.targetID != [] && ev.payloadHash != []
            && if ev.payload == [] then DecodeHash(ev.payloadHash).Some?
               else NormalizeHash(ev.payloadHash) == HashPayload(cfg.sha, ev.payload) &&
                    R.ApplyPolicy(cfg.sha, cfg.codec, cfg.policy, ev.service, ev.action, ev.payload) != R.BadPayload
  {
    hide FirstMissing, NormalizeHash, HashPayload, DecodeHash, R.ApplyPolicy;
    if cfg.decode(value).Some? {
      FirstMissingIff(cfg.decode(value).value, Id);
    }
  }

  /** Which refusal a message meets: the first in the order of the checks. */
  lemma RefusalIs(cfg: Config, value: Bytes)
    requires Prepare(cfg, value).Rejected?
    ensures var why := Prepare(cfg, value).why;
            if cfg.decode(value) == None || FirstMissing(cfg.decode(value).value) != None then why == BadEnvelope
            else
              var ev := cfg.decode(value).value;
              if ev.payload == [] then why == PayloadHashFormat
              else why == if NormalizeHash(ev.payloadHash) != HashPayload(cfg.sha, ev.payload) then PayloadHashMismatch else RedactionFailed
  {
  }

  /** An inserted row, in terms of its message: the envelope's fields, the head's this_hash
      or genesis as prev_hash, its own hash, the default hold, no anchor, and the payload
      reference and redaction mark that go with what was written. */
  lemma InsertedRowIs(cfg: Config, st: Stores, value: Bytes, now: Time, fault: Fault)
    requires ProcessWith(cfg, st, value, now, fault).1.Inserted?
    ensures var (t, out) := ProcessWith(cfg, st, value, now, fault);
            var row := out.row;
            && Carries(cfg, value, row)
            && (st.rows == [] ==> row.sealed.prevHash == ZERO_HASH)
            && (st.rows != [] && |st.rows[|st.rows| - 1].thisHash| == 32 ==> row.sealed.prevHash == st.rows[|st.rows| - 1].thisHash)
            && row.thisHash == cfg.hash(row.sealed) && row.legalHold == cfg.legalHoldDefault && !row.anchored
            && row.redacted == StoredBody(cfg, cfg.decode(value).value).1
            && !HasId(st.rows, row.sealed.id) && t.rows == InsertSorted(st.rows, row) && t.log == st.log + [row]
  {
    hide FirstMissing, NormalizeHash, HashPayload, DecodeHash, R.ApplyPolicy, HasId, InsertSorted, V.MayPut, V.PutObject;
    if cfg.decode(value).value.payload == [] {
      NothingToRedact(cfg, cfg.decode(value).value);
    }
  }

  lemma InsertedCarries(cfg: Config, st: Stores, value: Bytes, now: Time, fault: Fault)
    ensures var out := ProcessWith(cfg, st, value, now, fault).1; out.Inserted? ==> Carries(cfg, value, out.row)
  {
    hide ProcessWith, Carries;
    if ProcessWith(cfg, st, value, now, fault).1.Inserted? {
      InsertedRowIs(cfg, st, value, now, fault);
    }
  }

  /** What the insert found in the object store: with a payload store, a bucket and a body,
      the body under the event's id for the configured class, days and hold; otherwise
      nothing was written and the row refers to nothing. */
  lemma InsertedPayloadIs(cfg: Config, st: Stores, value: Bytes, now: Time, fault: Fault)
    requires ProcessWith(cfg, st, value, now, fault).1.Inserted?
    ensures var (t, out) := ProcessWith(cfg, st, value, now, fault);
            var (row, ev) := (out.row, cfg.decode(value).value);
            var (body, path) := (StoredBody(cfg, ev).0, cfg.bucket + [47] + ev.id);
            if cfg.payloads && cfg.bucket != [] && body != [] then
              && row.payloadRef == ev.id && path in t.objects && V.MayPut(st.objects, path, now)
              && t.objects == V.PutObject(st.objects, path, body, V.PutOptions(cfg.storageClass, cfg.retentionDays, cfg.legalHoldDefault), now)
            else row.payloadRef == [] && t.objects == st.objects
  {
    hide FirstMissing, NormalizeHash, HashPayload, DecodeHash, HasId, InsertSorted, V.NewObject, V.Retained;
    InsertedRowIs(cfg, st, value, now, fault);
    if cfg.decode(value).value.payload == [] {
      NothingToRedact(cfg, cfg.decode(value).value);
    }
  }

  lemma NothingToRedact(cfg: Config, ev: Envelope)
    requires ev.payload == []
    ensures StoredBody(cfg, ev) == ([], false)
  {
  }

  /** Which outcome: a message that passes the checks fails where the store fails, is stopped
      by a retained object where there is a payload to write, and is otherwise inserted if
      and only if its id is new. */
  lemma OutcomeIs(cfg: Config, st: Stores, value: Bytes, now: Time, fault: Fault)
    requires Prepare(cfg, value).Ready?
    ensures var ev := cfg.decode(value).value;
            var out := ProcessWith(cfg, st, value, now, fault).1;
            var writes := cfg.payloads && cfg.bucket != [] && StoredBody(cfg, ev).0 != [];
            var free := V.MayPut(st.objects, cfg.bucket + [47] + ev.id, now);
            && (fault.HeadFails? ==> out == HeadFailed)
            && (fault.PutFails? && writes ==> out == PutFailed)
            && (!fault.HeadFails? && !fault.PutFails? && writes && !free ==> out == PutRefused)
            && (fault.InsertFails? && (!writes || free) ==> out == InsertFailed)
            && (fault.NoFault? && (!writes || free) ==> if HasId(st.rows, ev.id) then out == Duplicate else out.Inserted?)
  {
    hide FirstMissing, NormalizeHash, HashPayload, DecodeHash, HasId, InsertSorted, V.MayPut, V.PutObject, V.NewObject;
    if cfg.decode(value).value.payload == [] {
      NothingToRedact(cfg, cfg.decode(value).value);
    }
  }

  // ---- the code ----

  /** A message as consumed. */
  datatype Delivery = Delivery(partition: int, offset: int, key: Bytes, value: Bytes)

  datatype DeadLetter = DeadLetter(
    topic: Bytes, partition: int, offset: int, key: Bytes, payload: Bytes, reason: Reject)

  /** What a refused message adds to the dead letters. */
  function LettersFor(cfg: Config, msg: Delivery, why: Reject): seq<DeadLetter>
  {
    if cfg.deadLetters then [DeadLetter(cfg.topic, msg.partition, msg.offset, msg.key, msg.value, why)] else []
  }

  lemma LetterIs(cfg: Config, msg: Delivery, why: Reject)
    ensures var letters := LettersFor(cfg, msg, why);
            && (!cfg.deadLetters ==> letters == [])
            && (cfg.deadLetters ==>
                  && |letters| == 1
                  && letters[0].topic == cfg.topic && letters[0].partition == msg.partition && letters[0].offset == msg.offset
                  && letters[0].key == msg.key && letters[0].payload == msg.value && letters[0].reason == why)
  {
  }

  class Pipeline {
    const events: M.EventStore
    const payloads: V.Fake
    var letters: seq<DeadLetter>
    ghost var log: seq<Event>

    constructor (e: M.EventStore, f: V.Fake)
      ensures events == e && payloads == f && letters == [] && log == []
    {
      events, payloads, letters, log := e, f, [], [];
    }

    ghost predicate Valid()
      reads this, events, events.ordered, payloads, payloads.cells
    {
      events.Valid() && payloads.Valid()
    }

    ghost function View(): Stores
      reads this, events, payloads
    {
      Stores(events.rows, payloads.vault, log)
    }

    method Reject(cfg: Config, msg: Delivery, why: Reject) returns (out: Outcome)
      modifies `letters
      ensures letters == old(letters) + LettersFor(cfg, msg, why) && out == Refused(why)
      ensures cfg.deadLetters ==>
                var letter := letters[|letters| - 1];
                && letter.topic == cfg.topic && letter.partition == msg.partition && letter.offset == msg.offset
                && letter.key == msg.key && letter.payload == msg.value && letter.reason == why
    {
      out := Refused(why);
      if !cfg.deadLetters {
        return;
      }
      letters := letters + [DeadLetter(cfg.topic, msg.partition, msg.offset, msg.key, msg.value, why)];
    }

    /** The store-free part of IngestMessage. */
    method Check(cfg: Config, value: Bytes) returns (r: Preparation)
      ensures r == Prepare(cfg, value)
    {
      hide R.ApplyPolicy, FirstMissing, NormalizeHash, HashPayload, DecodeHash;
      var decoded := cfg.decode(value);
      if decoded == None || FirstMissing(decoded.value) != None {
        return Rejected(BadEnvelope);
      }
      var ev := decoded.value;
      var payloadHash := ev.payloadHash;
      var body := [];
      if |ev.payload| > 0 {
        body := ev.payload;
        var computed := HashPayload(cfg.sha, body);
        NormalizeEmpty(cfg.sha, ev);
        if ev.payloadHash != [] && NormalizeHash(ev.payloadHash) != computed {
          return Rejected(PayloadHashMismatch);
        }
        payloadHash := computed;
      }
      var redacted := false;
      if |body| > 0 {
        var applied := R.Apply(cfg.sha, cfg.codec, cfg.policy, ev.service, ev.action, body);
        if applied.BadPayload? {
          return Rejected(RedactionFailed);
        }
        if applied.changed {
          body, redacted := applied.body, true;
        }
      }
      ComputedHashDecodes(cfg.sha, ev.payload);
      var decodedHash := DecodeHash(payloadHash);
      if decodedHash == None {
        return Rejected(PayloadHashFormat);
      }
      return Ready(Outline(ev, decodedHash.value, body, redacted));
    }

    /** The payload put that precedes the insert. */
    method PutPayload(cfg: Config, p: Prepared, now: Time, fault: Fault) returns (end: Option<Outcome>)
      requires payloads.Valid()
      modifies payloads
      ensures payloads.Valid() && fresh(payloads.cells - old(payloads.cells))
      ensures (payloads.vault, end) == PutStep(cfg, old(payloads.vault), p, now, fault)
    {
      hide V.PutObject, V.MayPut;
      end := None;
      if cfg.payloads && cfg.bucket != [] && |p.body| > 0 {
        RefusedPutChangesNothing(payloads.vault, PathFor(cfg, p), p.body, OptionsFor(cfg), now);
        if fault.PutFails? && !fault.wrote {
          return Some(PutFailed);
        }
        var put := payloads.Put(cfg.bucket, p.id, OptionsFor(cfg), p.body, now);
        if fault.PutFails? {
          return Some(PutFailed);
        }
        if put.RetentionActive? {
          return Some(PutRefused);
        }
      }
    }

    method InsertIndexRow(row: Event, fault: Fault) returns (out: Outcome)
      requires Valid()
      modifies `log, events
      ensures Valid()
      ensures (View(), out) == InsertStep(old(View()), row, fault)
    {
      hide M.Indexed, Table, HasId, InsertSorted;
      if fault.InsertFails? {
        return InsertFailed;
      }
      var inserted := events.Insert(row);
      if !inserted {
        return Duplicate;
      }
      log := log + [row];
      return Inserted(row);
    }

    method IngestMessage(cfg: Config, msg: Delivery, now: Time, fault: Fault) returns (out: Outcome)
      requires Valid()
      modifies this, events, payloads
      ensures Valid()
      ensures (View(), out) == ProcessWith(cfg, old(View()), msg.value, now, fault)
      ensures out.Inserted? ==> Carries(cfg, msg.value, out.row)
      ensures letters == old(letters) + if out.Refused? then LettersFor(cfg, msg, out.why) else []
    {
      hide Prepare, PutStep, InsertStep, M.Indexed, Table, LettersFor, Carries;
      var prepared := Check(cfg, msg.value);
      if prepared.Rejected? {
        out := Reject(cfg, msg, prepared.why);
        return;
      }
      var p := prepared.p;
      InsertedCarries(cfg, View(), msg.value, now, fault);
      StepsNeverRefuse(cfg, View(), p, now, fault);
      if fault.HeadFails? {
        return HeadFailed;
      }
      var head := events.ChainHead();
      var prev := if head != None && |head.value.thisHash| == 32 then head.value.thisHash else ZERO_HASH;
      var end := PutPayload(cfg, p, now, fault);
      if end.Some? {
        return end.value;
      }
      out := InsertIndexRow(RowFor(cfg, p, prev), fault);
    }
  }

  /** A call that passed the checks does not end as a refusal. */
  lemma StepsNeverRefuse(cfg: Config, st: Stores, p: Prepared, now: Time, fault: Fault)
    ensures PutStep(cfg, st.objects, p, now, fault).1.Some? ==> !PutStep(cfg, st.objects, p, now, fault).1.value.Refused?
    ensures forall t, row :: !InsertStep(t, row, fault).1.Refused?
  {
  }

  lemma RefusedPutChangesNothing(objects: V.Objects, path: Bytes, body: Bytes, opts: V.PutOptions, now: Time)
    ensures !V.MayPut(objects, path, now) ==> V.PutObject(objects, path, body, opts, now) == objects
  {
  }

  lemma NormalizeEmpty(sha: Sha256, ev: Envelope)
    requires FirstMissing(ev) == None
    ensures ev.payloadHash != []
  {
  }

  /** The hash string computed from a payload decodes to the payload's digest. */
  lemma ComputedHashDecodes(sha: Sha256, payload: Bytes)
    ensures DecodeHash(HashPayload(sha, payload)) == Some(sha(payload))
  {
    DecodeEncodeHash(sha(payload));
    assert EncodeHash(sha(payload)) == HashPayload(sha, payload);
  }
}

/** Where stored rows come from: over whole runs, every row has the fields of a message
    that arrived, and its payload was put for the days and the hold that are configured. */
module Origins {
  import opened ByteStrings
  import opened Events
  import opened Chain
  import opened Rows
  import opened Wire
  import opened Ingest
  import R = Redaction
  import opened AuditSystem
  import A = Arrival
  import V = Vault

  // ---- sequential runs ----

  ghost predicate FromMessages(cfg: Config, msgs: seq<A.Message>, row: Event)
  {
    exists i :: 0 <= i < |msgs| && Carries(cfg, msgs[i].0, row)
  }

  /** Every row of a sequential run carries the envelope of one of its messages. */
  lemma {:induction false} RowsCarryMessages(cfg: Config, msgs: seq<A.Message>)
    ensures forall i :: 0 <= i < |A.Run(cfg, msgs).rows| ==> FromMessages(cfg, msgs, A.Run(cfg, msgs).rows[i])
  {
    if msgs == [] {
      assert A.Run(cfg, msgs).rows == [];
    } else {
      hide Prepare, Carries, Slot, A.Run, HasId;
      var n := |msgs| - 1;
      var st := A.Run(cfg, msgs[..n]);
      RowsCarryMessages(cfg, msgs[..n]);
      A.RunStep(cfg, msgs);
      forall row | FromMessages(cfg, msgs[..n], row)
        ensures FromMessages(cfg, msgs, row)
      {
        var i :| 0 <= i < n && Carries(cfg, msgs[..n][i].0, row);
        assert Carries(cfg, msgs[i].0, row);
      }
      FaultsOnlyLoseRows(cfg, st, msgs[n].0, msgs[n].1, NoFault);
      var out := Process(cfg, st, msgs[n].0, msgs[n].1);
      if out.1.Inserted? {
        InsertedRowIs(cfg, st, msgs[n].0, msgs[n].1, NoFault);
        assert FromMessages(cfg, msgs, out.1.row);
        InsertedRows(st.rows, out.1.row);
      }
    }
  }

  lemma InsertedRows(rows: seq<Event>, e: Event)
    ensures forall i :: 0 <= i < |InsertSorted(rows, e)| ==> InsertSorted(rows, e)[i] == e || InsertSorted(rows, e)[i] in rows
  {
    hide Slot;
  }

  // ---- interleaved runs ----

  /** A step by which a message with the row's envelope arrived. */
  ghost predicate Brought(cfg: Config, step: Step, row: Event)
  {
    step.OfCall? && step.call.Arrive? && Carries(cfg, step.call.value, row)
  }

  ghost predicate FromSteps(cfg: Config, past: seq<Step>, row: Event)
  {
    exists i :: 0 <= i < |past| && Brought(cfg, past[i], row)
  }

  /** The rows and the calls in flight all go back to an arrival. */
  ghost predicate OriginInv(cfg: Config, past: seq<Step>, s: State)
  {
    && (forall i :: 0 <= i < |s.rows| ==> FromSteps(cfg, past, s.rows[i]))
    && (forall c :: c in s.calls ==> CallFromSteps(cfg, past, s.calls[c]))
  }

  /** Any row that the call may insert goes back to an arrival. */
  ghost predicate CallFromSteps(cfg: Config, past: seq<Step>, c: Call)
  {
    match c
    case Checked(p) => forall prev :: FromSteps(cfg, past, RowFor(cfg, p, prev))
    case HeadRead(p, _) => forall prev :: FromSteps(cfg, past, RowFor(cfg, p, prev))
    case PayloadDone(row, _) => FromSteps(cfg, past, row)
  }

  lemma FromMoreSteps(cfg: Config, past: seq<Step>, step: Step, row: Event)
    requires FromSteps(cfg, past, row)
    ensures FromSteps(cfg, past + [step], row)
  {
    hide Brought;
    var i :| 0 <= i < |past| && Brought(cfg, past[i], row);
    assert (past + [step])[i] == past[i];
  }

  lemma CallFromMoreSteps(cfg: Config, past: seq<Step>, step: Step, c: Call)
    requires CallFromSteps(cfg, past, c)
    ensures CallFromSteps(cfg, past + [step], c)
  {
    hide FromSteps, RowFor;
    if c.PayloadDone? {
      FromMoreSteps(cfg, past, step, c.row);
    } else {
      forall prev
        ensures FromSteps(cfg, past + [step], RowFor(cfg, c.p, prev))
      {
        FromMoreSteps(cfg, past, step, RowFor(cfg, c.p, prev));
      }
    }
  }

  lemma CarriesIgnoresFlags(cfg: Config, value: Bytes, a: Event, b: Event)
    requires Carries(cfg, value, a) && a.sealed == b.sealed
    ensures Carries(cfg, value, b)
  {
  }

  lemma FromStepsIgnoresFlags(cfg: Config, past: seq<Step>, a: Event, b: Event)
    requires FromSteps(cfg, past, a) && a.sealed == b.sealed
    ensures FromSteps(cfg, past, b)
  {
    hide Carries;
    var i :| 0 <= i < |past| && Brought(cfg, past[i], a);
    CarriesIgnoresFlags(cfg, past[i].call.value, a, b);
    assert Brought(cfg, past[i], b);
  }

  /** What passes the checks has the message's envelope, under any policy. */
  lemma PreparedCarries(cfg: Config, policy: seq<R.Rule<Bytes>>, value: Bytes, prev: Bytes)
    requires Prepare(cfg.(policy := policy), value).Ready?
    ensures Carries(cfg, value, RowFor(cfg, Prepare(cfg.(policy := policy), value).p, prev))
  {
    hide FirstMissing, NormalizeHash, HashPayload, DecodeHash, R.ApplyPolicy;
  }

  lemma ArrivalFromSteps(cfg: Config, past: seq<Step>, c: nat, value: Bytes, policy: seq<R.Rule<Bytes>>)
    requires Prepare(cfg.(policy := policy), value).Ready?
    ensures CallFromSteps(cfg, past + [OfCall(c, Arrive(value, policy))], Checked(Prepare(cfg.(policy := policy), value).p))
  {
    hide Prepare, Carries, RowFor;
    var step := OfCall(c, Arrive(value, policy));
    forall prev
      ensures FromSteps(cfg, past + [step], RowFor(cfg, Prepare(cfg.(policy := policy), value).p, prev))
    {
      PreparedCarries(cfg, policy, value, prev);
      assert Brought(cfg, (past + [step])[|past|], RowFor(cfg, Prepare(cfg.(policy := policy), value).p, prev));
    }
  }

  lemma InsertEndsCall(s: State, c: nat, row: Event, written: Option<V.Object>)
    ensures AfterInsert(s, c, row, written).calls == s.calls - {c}
  {
    hide HasId, InsertSorted;
  }

  /** The calls after a step of one of them. */
  lemma CallsKeepOrigin(cfg: Config, past: seq<Step>, s: State, c: nat, action: CallAction, d: nat)
    requires OriginInv(cfg, past, s) && d in AfterCall(cfg, s, c, action).calls
    ensures CallFromSteps(cfg, past + [OfCall(c, action)], AfterCall(cfg, s, c, action).calls[d])
  {
    hide Prepare, FromSteps, RowFor, PrevHashFor, AfterPayload, AfterInsert, V.MayPut, V.NewObject, OptionsFor;
    var step := OfCall(c, action);
    if c in s.calls && s.calls[c].PayloadDone? {
      InsertEndsCall(s, c, s.calls[c].row, s.calls[c].written);
    }
    if d in s.calls {
      CallFromMoreSteps(cfg, past, step, s.calls[d]);
    }
    if action.Arrive? && Prepare(cfg.(policy := action.policy), action.value).Ready? {
      ArrivalFromSteps(cfg, past, c, action.value, action.policy);
    }
  }

  lemma RowsKeepOrigin(cfg: Config, past: seq<Step>, s: State, c: nat, action: CallAction, i: nat)
    requires OriginInv(cfg, past, s) && i < |AfterCall(cfg, s, c, action).rows|
    ensures FromSteps(cfg, past + [OfCall(c, action)], AfterCall(cfg, s, c, action).rows[i])
  {
    hide FromSteps, RowFor, AfterCall, InsertSorted;
    var step, t := OfCall(c, action), AfterCall(cfg, s, c, action);
    CallFrame(cfg, s, c, action);
    if action.Insert? && c in s.calls && s.calls[c].PayloadDone? {
      var row := s.calls[c].row;
      assert CallFromSteps(cfg, past, s.calls[c]);
      FromMoreSteps(cfg, past, step, row);
      InsertedRows(s.rows, row);
    }
    if t.rows[i] in s.rows {
      var k :| 0 <= k < |s.rows| && s.rows[k] == t.rows[i];
      FromMoreSteps(cfg, past, step, s.rows[k]);
    }
  }

  /** Steps that leave calls alone and touch flags only. */
  lemma FlagsKeepOrigin(cfg: Config, past: seq<Step>, step: Step, s: State, t: State)
    requires OriginInv(cfg, past, s) && t.calls == s.calls && SameRowsButFlags(s.rows, t.rows)
    ensures OriginInv(cfg, past + [step], t)
  {
    hide FromSteps, CallFromSteps;
    forall i | 0 <= i < |t.rows|
      ensures FromSteps(cfg, past + [step], t.rows[i])
    {
      assert SameButFlags(s.rows[i], t.rows[i]);
      FromStepsIgnoresFlags(cfg, past, s.rows[i], t.rows[i]);
      FromMoreSteps(cfg, past, step, t.rows[i]);
    }
    forall c | c in t.calls
      ensures CallFromSteps(cfg, past + [step], t.calls[c])
    {
      CallFromMoreSteps(cfg, past, step, s.calls[c]);
    }
  }

  lemma StepKeepsOrigin(cfg: Config, past: seq<Step>, s: State, step: Step)
    requires OriginInv(cfg, past, s)
    ensures OriginInv(cfg, past + [step], After(cfg, s, step))
  {
    hide FromSteps, CallFromSteps, AfterCall, AfterJob;
    match step
    case OfCall(c, action) =>
      var t := AfterCall(cfg, s, c, action);
      forall i | 0 <= i < |t.rows|
        ensures FromSteps(cfg, past + [step], t.rows[i])
      {
        RowsKeepOrigin(cfg, past, s, c, action, i);
      }
      forall d | d in t.calls
        ensures CallFromSteps(cfg, past + [step], t.calls[d])
      {
        CallsKeepOrigin(cfg, past, s, c, action, d);
      }
    case OfJob(j, action) =>
      JobFrame(s, j, action);
      FlagsKeepOrigin(cfg, past, step, s, After(cfg, s, step));
    case _ =>
      SameRowsReflexive(s.rows);
      FlagsKeepOrigin(cfg, past, step, s, After(cfg, s, step));
  }

  lemma {:induction false} RunKeepsOrigin(cfg: Config, past: seq<Step>, s: State, steps: seq<Step>)
    requires OriginInv(cfg, past, s)
    ensures OriginInv(cfg, past + steps, Run(cfg, s, steps))
    decreases |steps|
  {
    hide OriginInv, After;
    if steps == [] {
      assert past + steps == past;
    } else {
      StepKeepsOrigin(cfg, past, s, steps[0]);
      RunKeepsOrigin(cfg, past + [steps[0]], After(cfg, s, steps[0]), steps[1..]);
      assert past + [steps[0]] + steps[1..] == past + steps;
    }
  }

  /** In every interleaving, with faults, changing policies and repeated ids, every stored
      row carries the envelope of a message that arrived. */
  lemma RowsCarryArrivals(cfg: Config, now: Time, steps: seq<Step>, i: nat)
    requires i < |Run(cfg, Start(now), steps).rows|
    ensures exists k :: 0 <= k < |steps| && steps[k].OfCall? && steps[k].call.Arrive?
                        && Carries(cfg, steps[k].call.value, Run(cfg, Start(now), steps).rows[i])
  {
    hide Run, Carries;
    RunKeepsOrigin(cfg, [], Start(now), steps);
    assert [] + steps == steps;
    var row := Run(cfg, Start(now), steps).rows[i];
    assert FromSteps(cfg, steps, row);
    var k :| 0 <= k < |steps| && Brought(cfg, steps[k], row);
  }
}

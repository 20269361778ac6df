/** What holds in every state the service can reach, whatever the interleaving. */
module AuditResults {
  import opened ByteStrings
  import opened Events
  import opened Chain
  import opened Rows
  import opened Paging
  import opened Ingest
  import opened AuditSystem
  import A = Arrival
  import V = Vault
  import S = Sweep

  // ---- prev links ----

  /** Successive events of a walk along prev_hash, newest first. */
  ghost predicate WalksBack(rows: seq<Event>, path: seq<Event>)
    ensures WalksBack(rows, path) ==> path != []
  {
    && path != []
    && (forall k :: 0 <= k < |path| ==> path[k] in rows)
    && (forall k, l :: 0 <= k < |path| && l == k + 1 < |path| ==> Linked(path[l], path[k]))
    && path[|path| - 1].sealed.prevHash == ZERO_HASH
  }

  lemma SingleWalk(rows: seq<Event>, e: Event)
    requires e in rows && e.sealed.prevHash == ZERO_HASH
    ensures WalksBack(rows, [e])
  {
  }

  lemma ExtendWalk(rows: seq<Event>, e: Event, rest: seq<Event>)
    requires WalksBack(rows, rest) && e in rows && Linked(rest[0], e)
    ensures WalksBack(rows, [e] + rest)
  {
  }

  lemma {:induction false} WalkFrom(s: State, i: nat, e: Event) returns (path: seq<Event>)
    requires LinksInv(s) && i < |s.log| && SameButFlags(e, s.log[i]) && e in s.rows
    ensures WalksBack(s.rows, path) && path[0] == e && |path| <= i + 1
    decreases i
  {
    hide WalksBack;
    if e.sealed.prevHash == ZERO_HASH {
      path := [e];
      assert WalksBack(s.rows, path) by { SingleWalk(s.rows, e); }
    } else {
      assert KnownPrev(s.log[..i], s.log[i].sealed.prevHash);
      var j :| 0 <= j < i && s.log[..i][j].thisHash == e.sealed.prevHash;
      assert InLog(s.rows, s.log[j]);
      var k :| 0 <= k < |s.rows| && SameButFlags(s.log[j], s.rows[k]);
      var rest := WalkFrom(s, j, s.rows[k]);
      ExtendWalk(s.rows, e, rest);
      path := [e] + rest;
    }
  }

  /** With any number of concurrent ingest calls, following prev_hash from any stored
      event reaches genesis within the size of the store. */
  lemma PrevLinksReachGenesis(cfg: Config, now: Time, steps: seq<Step>, i: nat) returns (path: seq<Event>)
    requires i < |Run(cfg, Start(now), steps).rows|
    ensures var rows := Run(cfg, Start(now), steps).rows;
            WalksBack(rows, path) && path[0] == rows[i] && |path| <= |rows|
  {
    hide Run, RowsInv, PayloadsInv, AnchorsInv;
    ReachableInv(cfg, now, steps);
    var s := Run(cfg, Start(now), steps);
    assert InLog(s.log, s.rows[i]);
    var j :| 0 <= j < |s.log| && SameButFlags(s.rows[i], s.log[j]);
    path := WalkFrom(s, j, s.rows[i]);
  }

  /** In an untampered store a walk over any selection can fail for a missing link
      only, never for a hash that does not recompute. */
  lemma UntamperedNeverBroken(cfg: Config, now: Time, steps: seq<Step>, f: Filter, k: int, status: Status)
    requires FirstFault(cfg.hash, Select(Run(cfg, Start(now), steps).rows, f), k, status)
    ensures status == StatusGap
  {
    hide Run, LinksInv, PayloadsInv, AnchorsInv, Select, Intact;
    ReachableInv(cfg, now, steps);
    var rows := Run(cfg, Start(now), steps).rows;
    S.WindowDistinct(rows, f) by { S.TableIsSorted(rows); }
    var e := Select(rows, f)[k];
    assert e in rows;
    var i :| 0 <= i < |rows| && rows[i] == e;
    assert SoundRow(cfg, rows[i]);
  }

  // ---- anchors ----

  function ExportsIn(anchors: seq<S.Anchor>): nat
  {
    if anchors == [] then 0
    else ExportsIn(anchors[..|anchors| - 1]) + if FromJob(anchors[|anchors| - 1]) then 0 else 1
  }

  lemma AnchorMatches(cfg: Config, s: State, a: S.Anchor)
    requires RowsInv(cfg, s) && TrueAnchor(s.rows, a)
    ensures S.Mismatch(s.rows, a) <==> !FromJob(a)
  {
  }

  lemma {:induction false} MismatchesAreExports(cfg: Config, s: State, anchors: seq<S.Anchor>, from: Time, to: Time)
    requires RowsInv(cfg, s) && forall i :: 0 <= i < |anchors| ==> TrueAnchor(s.rows, anchors[i])
    ensures S.Mismatches(s.rows, S.WindowOf(anchors, from, to)) == ExportsIn(S.WindowOf(anchors, from, to))
  {
    hide RowsInv, TrueAnchor, S.Mismatch, S.InAnchorWindow;
    if anchors != [] {
      var n := |anchors| - 1;
      var window := S.WindowOf(anchors[..n], from, to);
      assert forall i :: 0 <= i < n ==> anchors[..n][i] == anchors[i];
      MismatchesAreExports(cfg, s, anchors[..n], from, to);
      AnchorMatches(cfg, s, anchors[n]);
      S.WindowNext(anchors, from, to);
      hide S.WindowOf;
      assert (window + [anchors[n]])[..|window|] == window;
    }
  }

  /** In every interleaving, the anchors a sweep counts as mismatches are exactly those
      written by exports, which name no last event; with anchors from anchor jobs only
      it counts none. */
  lemma SweepMismatchesAreExports(cfg: Config, now: Time, steps: seq<Step>, from: Time, to: Time)
    ensures var s := Run(cfg, Start(now), steps);
            S.Mismatches(s.rows, S.WindowOf(s.anchors, from, to)) == ExportsIn(S.WindowOf(s.anchors, from, to))
  {
    hide Run, RowsInv, LinksInv, PayloadsInv, TrueAnchor;
    ReachableInv(cfg, now, steps);
    var s := Run(cfg, Start(now), steps);
    MismatchesAreExports(cfg, s, s.anchors, from, to);
  }

  /** Every anchor a job stored names an event that is still there with the key and
      the this_hash the anchor recorded. */
  lemma JobAnchorsStayTrue(cfg: Config, now: Time, steps: seq<Step>, i: nat)
    requires i < |Run(cfg, Start(now), steps).anchors| && FromJob(Run(cfg, Start(now), steps).anchors[i])
    ensures var s := Run(cfg, Start(now), steps);
            var a := s.anchors[i];
            exists k :: 0 <= k < |s.rows| && KeyOf(s.rows[k]) == Key(a.lastTS, a.lastID) && s.rows[k].thisHash == a.root
  {
    hide Run, RowsInv, LinksInv, PayloadsInv;
    ReachableInv(cfg, now, steps);
    var s := Run(cfg, Start(now), steps);
    assert TrueAnchor(s.rows, s.anchors[i]);
  }

  // ---- anchored flags ----

  /** Every anchored event is covered by a stored job anchor, and the counts that
      MarkAnchored returned add up to the number of anchored events. */
  lemma AnchoredFlagsSound(cfg: Config, now: Time, steps: seq<Step>)
    ensures var s := Run(cfg, Start(now), steps);
            && CountAnchored(s.rows) == s.marked
            && forall i :: 0 <= i < |s.rows| && s.rows[i].anchored ==>
                 exists k :: 0 <= k < |s.anchors| && FromJob(s.anchors[k])
                             && KeyAtMost(KeyOf(s.rows[i]), Key(s.anchors[k].lastTS, s.anchors[k].lastID))
  {
    hide Run, RowsInv, LinksInv, PayloadsInv, KeyAtMost;
    ReachableInv(cfg, now, steps);
    var s := Run(cfg, Start(now), steps);
    assert forall i :: 0 <= i < |s.rows| ==> CoveredRow(s.anchors, s.rows[i]);
  }

  /** Every row of a is in b with the same content and no anchored flag cleared. */
  ghost predicate Survives(a: seq<Event>, b: seq<Event>)
  {
    forall i :: 0 <= i < |a| ==> SurvivesIn(a[i], b)
  }

  ghost predicate SurvivesIn(e: Event, b: seq<Event>)
  {
    exists j :: 0 <= j < |b| && SameButFlags(e, b[j]) && (e.anchored ==> b[j].anchored)
  }

  lemma SurvivesTransitive(a: seq<Event>, b: seq<Event>, c: seq<Event>)
    requires Survives(a, b) && Survives(b, c)
    ensures Survives(a, c)
  {
  }

  lemma SurvivesReflag(a: seq<Event>, b: seq<Event>)
    requires SameRowsButFlags(a, b) && forall i :: 0 <= i < |a| && a[i].anchored ==> b[i].anchored
    ensures Survives(a, b)
  {
  }

  lemma SurvivesInsert(rows: seq<Event>, e: Event)
    ensures Survives(rows, InsertSorted(rows, e))
  {
    hide Slot;
    var p, out := Slot(rows, KeyOf(e)), InsertSorted(rows, e);
    forall i | 0 <= i < |rows|
      ensures SurvivesIn(rows[i], out)
    {
      SameButFlagsReflexive(rows[i]);
      assert out[if i < p then i else i + 1] == rows[i];
    }
  }

  lemma SurvivesJob(s: State, j: nat, action: JobAction)
    ensures Survives(s.rows, AfterJob(s, j, action).rows)
  {
  }

  lemma SurvivesStep(cfg: Config, s: State, step: Step)
    ensures Survives(s.rows, After(cfg, s, step).rows)
  {
    hide AfterCall, AfterJob, Survives, HasId, InsertSorted;
    SameRowsReflexive(s.rows);
    SurvivesReflag(s.rows, s.rows);
    match step
    case OfCall(c, action) =>
      CallFrame(cfg, s, c, action);
      if action.Insert? && c in s.calls && s.calls[c].PayloadDone? {
        SurvivesInsert(s.rows, s.calls[c].row);
      }
    case OfJob(j, action) => SurvivesJob(s, j, action);
    case Hold(id, hold) => SurvivesReflag(s.rows, SetHold(s.rows, id, hold));
    case _ =>
  }

  /** Append-only: from any state on, no row is lost, no field but the two flags
      changes, and no anchored flag is cleared. */
  lemma {:induction false} RowsSurvive(cfg: Config, s: State, steps: seq<Step>)
    ensures Survives(s.rows, Run(cfg, s, steps).rows)
    decreases |steps|
  {
    hide After, Survives;
    if steps == [] {
      SameRowsReflexive(s.rows);
      SurvivesReflag(s.rows, s.rows);
    } else {
      SurvivesStep(cfg, s, steps[0]);
      RowsSurvive(cfg, After(cfg, s, steps[0]), steps[1..]);
      SurvivesTransitive(s.rows, After(cfg, s, steps[0]).rows, Run(cfg, s, steps).rows);
    }
  }

  /** When an anchor job finishes its mark, every event then present at or below its
      head is anchored, and stays so whatever follows. */
  lemma FinishedJobAnchorsAll(cfg: Config, s: State, j: nat, k: Key, later: seq<Step>, i: nat)
    requires j in s.jobs && s.jobs[j] == AnchorStored(k)
    requires i < |s.rows| && KeyAtMost(KeyOf(s.rows[i]), k)
    ensures var end := Run(cfg, After(cfg, s, OfJob(j, MarkRows)), later).rows;
            exists n :: 0 <= n < |end| && end[n].sealed == s.rows[i].sealed && end[n].anchored
  {
    hide CountAnchored, KeyAtMost, Run;
    var t := After(cfg, s, OfJob(j, MarkRows));
    RowsSurvive(cfg, t, later);
    assert t.rows[i].anchored && t.rows[i].sealed == s.rows[i].sealed;
    assert SurvivesIn(t.rows[i], Run(cfg, t, later).rows);
  }

  // ---- the steps compose to the code ----

  lemma CallsForget(calls: map<nat, Call>, c: nat, x: Call, y: Call, z: Call)
    requires c !in calls
    ensures calls[c := x][c := y] == calls[c := y] && calls[c := y][c := z] == calls[c := z]
    ensures calls[c := y] - {c} == calls && calls[c := z] - {c} == calls
  {
  }

  lemma FirstTwoSteps(cfg: Config, s: State, c: nat, value: Bytes)
    requires c !in s.calls
    ensures var t := After(cfg, After(cfg, s, OfCall(c, Arrive(value, cfg.policy))), OfCall(c, ReadHead));
            if Prepare(cfg, value).Ready?
            then t == s.(calls := s.calls[c := HeadRead(Prepare(cfg, value).p, PrevHashFor(s.rows))])
            else t == s
  {
    hide Prepare, PrevHashFor;
    assert cfg.(policy := cfg.policy) == cfg;
    if Prepare(cfg, value).Ready? {
      var p := Prepare(cfg, value).p;
      CallsForget(s.calls, c, Checked(p), HeadRead(p, PrevHashFor(s.rows)), Checked(p));
    }
  }

  lemma LastTwoSteps(cfg: Config, s: State, c: nat, p: Prepared, prev: Bytes)
    requires c !in s.calls
    ensures var u := s.(calls := s.calls[c := HeadRead(p, prev)]);
            var t, row := After(cfg, After(cfg, u, OfCall(c, PutPayload)), OfCall(c, Insert)), RowFor(cfg, p, prev);
            && t.calls == s.calls && t.anchors == s.anchors && t.jobs == s.jobs
            && if !PayloadAccepted(cfg, s.objects, p, s.now) then t.rows == s.rows && t.log == s.log && t.objects == s.objects
               else t.objects == AfterPayload(cfg, s.objects, p, s.now) &&
                    if HasId(s.rows, p.id) then t.rows == s.rows && t.log == s.log
                    else t.rows == InsertSorted(s.rows, row) && t.log == s.log + [row]
  {
    hide HasId, InsertSorted, V.MayPut, V.PutObject, After;
    var u := s.(calls := s.calls[c := HeadRead(p, prev)]);
    ThePut(cfg, u, c, p, prev);
    var v, row := After(cfg, u, OfCall(c, PutPayload)), RowFor(cfg, p, prev);
    assert u.calls - {c} == s.calls;
    if PayloadAccepted(cfg, s.objects, p, s.now) {
      TheInsert(cfg, v, c, row);
      assert v.calls - {c} == s.calls;
    } else {
      TheInsert(cfg, v, c, row);
    }
  }

  lemma ThePut(cfg: Config, u: State, c: nat, p: Prepared, prev: Bytes)
    requires c in u.calls && u.calls[c] == HeadRead(p, prev)
    ensures var v := After(cfg, u, OfCall(c, PutPayload));
            && v.rows == u.rows && v.log == u.log && v.anchors == u.anchors && v.jobs == u.jobs
            && if !PayloadAccepted(cfg, u.objects, p, u.now) then v.objects == u.objects && v.calls == u.calls - {c}
               else v.objects == AfterPayload(cfg, u.objects, p, u.now) && c in v.calls && v.calls - {c} == u.calls - {c} &&
                    v.calls[c].PayloadDone? && v.calls[c].row == RowFor(cfg, p, prev)
  {
    hide V.MayPut, V.PutObject, RowFor;
  }

  lemma TheInsert(cfg: Config, v: State, c: nat, row: Event)
    requires c in v.calls ==> v.calls[c].PayloadDone? && v.calls[c].row == row
    ensures var t := After(cfg, v, OfCall(c, Insert));
            && t.objects == v.objects && t.anchors == v.anchors && t.jobs == v.jobs && t.calls == v.calls - {c}
            && if c !in v.calls || HasId(v.rows, row.sealed.id) then t.rows == v.rows && t.log == v.log
               else t.rows == InsertSorted(v.rows, row) && t.log == v.log + [row]
  {
    hide HasId, InsertSorted;
  }

  /** A call whose four store accesses run with nothing in between does to the stores
      exactly what processing the message does, and leaves no trace among the calls. */
  lemma UninterleavedCallIsProcess(cfg: Config, s: State, c: nat, value: Bytes)
    requires c !in s.calls
    ensures var t := Run(cfg, s, [OfCall(c, Arrive(value, cfg.policy)), OfCall(c, ReadHead), OfCall(c, PutPayload), OfCall(c, Insert)]);
            && Stores(t.rows, t.objects, t.log) == Process(cfg, Stores(s.rows, s.objects, s.log), value, s.now).0
            && t.calls == s.calls && t.anchors == s.anchors && t.jobs == s.jobs
  {
    hide Prepare, HasId, InsertSorted, PayloadAccepted, AfterPayload, PrevHashFor, After, Run;
    RunFour(cfg, s, OfCall(c, Arrive(value, cfg.policy)), OfCall(c, ReadHead), OfCall(c, PutPayload), OfCall(c, Insert));
    FirstTwoSteps(cfg, s, c, value);
    if Prepare(cfg, value).Ready? {
      LastTwoSteps(cfg, s, c, Prepare(cfg, value).p, PrevHashFor(s.rows));
    } else {
      NothingToDo(cfg, s, c);
    }
  }

  // How a call meets a fault: the access that fails is replaced by its failure. A put
  // cannot fail where there is no payload to write.

  function HeadAction(fault: Fault): CallAction
  {
    if fault.HeadFails? then CallAction.HeadFails else ReadHead
  }

  function PutAction(cfg: Config, p: Prepared, fault: Fault): CallAction
  {
    if fault.PutFails? && WritesPayload(cfg, p) then CallAction.PutFails(fault.wrote) else PutPayload
  }

  function InsertAction(fault: Fault): CallAction
  {
    if fault.InsertFails? then CallAction.InsertFails else Insert
  }

  lemma HeadFault(cfg: Config, s: State, c: nat, value: Bytes)
    requires c !in s.calls
    ensures After(cfg, After(cfg, s, OfCall(c, Arrive(value, cfg.policy))), OfCall(c, CallAction.HeadFails)) == s
  {
    hide Prepare, PrevHashFor;
    if Prepare(cfg.(policy := cfg.policy), value).Ready? {
      var p := Prepare(cfg.(policy := cfg.policy), value).p;
      CallsForget(s.calls, c, Checked(p), Checked(p), Checked(p));
    }
  }

  lemma PutFault(cfg: Config, s: State, c: nat, p: Prepared, prev: Bytes, wrote: bool)
    requires c !in s.calls
    ensures var u := s.(calls := s.calls[c := HeadRead(p, prev)]);
            After(cfg, u, OfCall(c, CallAction.PutFails(wrote)))
            == s.(objects := if wrote then AfterPayload(cfg, s.objects, p, s.now) else s.objects)
  {
    hide AfterPayload;
    CallsForget(s.calls, c, HeadRead(p, prev), HeadRead(p, prev), HeadRead(p, prev));
  }

  /** A put that goes through, and then a failing insert. */
  lemma InsertFault(cfg: Config, s: State, c: nat, p: Prepared, prev: Bytes)
    requires c !in s.calls
    ensures var u := s.(calls := s.calls[c := HeadRead(p, prev)]);
            var t := After(cfg, After(cfg, u, OfCall(c, PutPayload)), OfCall(c, CallAction.InsertFails));
            && t.calls == s.calls && t.rows == s.rows && t.log == s.log
            && t.objects == if PayloadAccepted(cfg, s.objects, p, s.now) then AfterPayload(cfg, s.objects, p, s.now) else s.objects
  {
    hide After, V.MayPut, V.PutObject, RowFor;
    var u := s.(calls := s.calls[c := HeadRead(p, prev)]);
    ThePut(cfg, u, c, p, prev);
    assert u.calls - {c} == s.calls;
    EndedInsert(cfg, After(cfg, u, OfCall(c, PutPayload)), c);
  }

  lemma EndedInsert(cfg: Config, v: State, c: nat)
    requires c in v.calls ==> v.calls[c].PayloadDone?
    ensures After(cfg, v, OfCall(c, CallAction.InsertFails)) == v.(calls := v.calls - {c})
  {
  }

  lemma NoCallNoEffect(cfg: Config, s: State, c: nat, put: CallAction, insert: CallAction)
    requires c !in s.calls && !put.Arrive? && !insert.Arrive?
    ensures After(cfg, After(cfg, s, OfCall(c, put)), OfCall(c, insert)) == s
  {
  }

  /** The same for a call one of whose store accesses fails. */
  lemma UninterleavedFaultyCall(cfg: Config, s: State, c: nat, value: Bytes, fault: Fault)
    requires c !in s.calls && Prepare(cfg, value).Ready?
    ensures var t := Run(cfg, s, [OfCall(c, Arrive(value, cfg.policy)), OfCall(c, HeadAction(fault)),
                                  OfCall(c, PutAction(cfg, Prepare(cfg, value).p, fault)), OfCall(c, InsertAction(fault))]);
            && Stores(t.rows, t.objects, t.log) == ProcessWith(cfg, Stores(s.rows, s.objects, s.log), value, s.now, fault).0
            && t.calls == s.calls
  {
    hide Prepare, HasId, InsertSorted, PayloadAccepted, AfterPayload, PrevHashFor, RowFor, After, Run, WritesPayload;
    var p, prev := Prepare(cfg, value).p, PrevHashFor(s.rows);
    var put, insert := PutAction(cfg, p, fault), InsertAction(fault);
    RunFour(cfg, s, OfCall(c, Arrive(value, cfg.policy)), OfCall(c, HeadAction(fault)), OfCall(c, put), OfCall(c, insert));
    var u := s.(calls := s.calls[c := HeadRead(p, prev)]);
    FirstTwoSteps(cfg, s, c, value);
    NothingPutNothing(cfg, s.objects, p, s.now);
    if fault.HeadFails? {
      HeadFault(cfg, s, c, value);
      NoCallNoEffect(cfg, s, c, put, insert);
    } else if fault.PutFails? && WritesPayload(cfg, p) {
      PutFault(cfg, s, c, p, prev, fault.wrote);
      NoCallInsert(cfg, After(cfg, u, OfCall(c, put)), c);
    } else if fault.InsertFails? {
      InsertFault(cfg, s, c, p, prev);
    } else {
      LastTwoSteps(cfg, s, c, p, prev);
      RowForId(cfg, p, prev);
    }
  }

  lemma NoCallInsert(cfg: Config, s: State, c: nat)
    requires c !in s.calls
    ensures After(cfg, s, OfCall(c, Insert)) == s
  {
  }

  lemma RowForId(cfg: Config, p: Prepared, prev: Bytes)
    ensures RowFor(cfg, p, prev).sealed.id == p.id
  {
  }

  lemma NothingPutNothing(cfg: Config, objects: V.Objects, p: Prepared, now: Time)
    ensures !WritesPayload(cfg, p) ==> AfterPayload(cfg, objects, p, now) == objects && PayloadAccepted(cfg, objects, p, now)
  {
  }

  /** An anchor job whose three store accesses run with nothing in between does exactly
      what the job's code does to the rows and the anchors, and nothing else. */
  lemma UninterleavedJobIsRun(cfg: Config, s: State, j: nat, id: Bytes, sig: (Bytes, Bytes))
    requires j !in s.jobs && s.rows != [] && |RootOf(s.rows)| == 32
    ensures var t := Run(cfg, s, [OfJob(j, SeeHead), OfJob(j, StoreAnchor(id, sig)), OfJob(j, MarkRows)]);
            && (t.rows, t.anchors) == S.AnchorJobEffect(s.rows, s.anchors, sig, id, s.now)
            && t == s.(rows := t.rows, anchors := t.anchors, marked := s.marked + NewlyMarked(s.rows, KeyOf(s.rows[|s.rows| - 1])))
  {
    hide MarkUpTo, NewlyMarked, Run, KeyLess, AfterCall;
    RunThree(cfg, s, OfJob(j, SeeHead), OfJob(j, StoreAnchor(id, sig)), OfJob(j, MarkRows));
    var head := s.rows[|s.rows| - 1];
    var s1 := s.(jobs := s.jobs[j := HeadSeen(head)]);
    var s2 := AfterAnchor(s1, j, head, id, sig);
    assert s2.jobs - {j} == s.jobs;
  }

  lemma RunThree(cfg: Config, s: State, a: Step, b: Step, d: Step)
    ensures Run(cfg, s, [a, b, d]) == After(cfg, After(cfg, After(cfg, s, a), b), d)
  {
    hide After;
    var s1 := After(cfg, s, a);
    var s2 := After(cfg, s1, b);
    assert [a, b, d][1..] == [b, d] && [b, d][1..] == [d] && [d][1..] == [];
    assert Run(cfg, s, [a, b, d]) == Run(cfg, s1, [b, d]);
    assert Run(cfg, s1, [b, d]) == Run(cfg, s2, [d]);
    assert Run(cfg, s2, [d]) == Run(cfg, After(cfg, s2, d), []);
  }

  lemma NothingToDo(cfg: Config, s: State, c: nat)
    requires c !in s.calls
    ensures After(cfg, After(cfg, s, OfCall(c, PutPayload)), OfCall(c, Insert)) == s
  {
  }

  lemma RunFour(cfg: Config, s: State, a: Step, b: Step, d: Step, e: Step)
    ensures Run(cfg, s, [a, b, d, e]) == After(cfg, After(cfg, After(cfg, After(cfg, s, a), b), d), e)
  {
    hide After;
    var s1 := After(cfg, s, a);
    assert [a, b, d, e][1..] == [b, d, e];
    assert Run(cfg, s, [a, b, d, e]) == Run(cfg, s1, [b, d, e]);
    RunThree(cfg, s1, b, d, e);
  }
}

/** The object store: write-once retention with legal holds on a moving clock. */
module Vault {
  import opened ByteStrings
  import opened Events

  const SLASH: Byte := 47

  /** The bytes of "STANDARD". */
  const STANDARD: Bytes := [83, 84, 65, 78, 68, 65, 82, 68]

  const DAY: int := 24 * 3600 * 1_000_000_000

  datatype Object = Object(
    body: Bytes, storageClass: Bytes, retentionDays: int, legalHold: bool, createdAt: Time)

  datatype PutOptions = PutOptions(storageClass: Bytes, retentionDays: int, legalHold: bool)

  type Objects = map<Bytes, Object>

  function Path(bucket: Bytes, key: Bytes): Bytes { bucket + [SLASH] + key }

  /** A bucket name without a slash keeps different (bucket, key) pairs apart. */
  lemma PathInjective(b1: Bytes, k1: Bytes, b2: Bytes, k2: Bytes)
    requires SLASH !in b1 && SLASH !in b2
    ensures Path(b1, k1) == Path(b2, k2) <==> b1 == b2 && k1 == k2
  {
    var p, q := Path(b1, k1), Path(b2, k2);
    assert forall i :: 0 <= i < |b1| ==> p[i] == b1[i] && p[i] != SLASH;
    assert forall i :: 0 <= i < |b2| ==> q[i] == b2[i] && q[i] != SLASH;
    assert p[|b1|] == SLASH && q[|b2|] == SLASH;
    if p == q {
      assert |b1| == |b2|;
      assert b1 == p[..|b1|] && b2 == q[..|b2|];
      assert k1 == p[|b1| + 1..] && k2 == q[|b2| + 1..];
    }
  }

  /** An int64 nanosecond count wraps around. */
  function Wrap64(n: int): int
  {
    (n + 0x8000_0000_0000_0000) % 0x1_0000_0000_0000_0000 - 0x8000_0000_0000_0000
  }

  predicate Retained(o: Object, now: Time)
  {
    o.legalHold || (o.retentionDays > 0 && now < o.createdAt + Wrap64(o.retentionDays * DAY))
  }

  /** Retention only ever runs out. */
  lemma RetainedEarlier(o: Object, earlier: Time, later: Time)
    requires earlier <= later && Retained(o, later)
    ensures Retained(o, earlier)
  {
  }

  // ---- operations on values ----

  function NewObject(body: Bytes, opts: PutOptions, now: Time): Object
  {
    Object(body, if opts.storageClass == [] then STANDARD else opts.storageClass,
           opts.retentionDays, opts.legalHold, now)
  }

  /** A put is refused while the object already there is retained. */
  predicate MayPut(v: Objects, path: Bytes, now: Time)
  {
    path in v ==> !Retained(v[path], now)
  }

  function PutObject(v: Objects, path: Bytes, body: Bytes, opts: PutOptions, now: Time): Objects
  {
    if MayPut(v, path, now) then v[path := NewObject(body, opts, now)] else v
  }

  function DeleteObject(v: Objects, path: Bytes, now: Time): Objects
  {
    if path in v && !Retained(v[path], now) then v - {path} else v
  }

  /** Old enough for the lifecycle rule. */
  predicate Moves(o: Object, ageDays: int, fromClass: Bytes, now: Time)
  {
    o.storageClass == fromClass && o.createdAt <= now + Wrap64(-ageDays * DAY)
  }

  function Moved(o: Object, ageDays: int, fromClass: Bytes, toClass: Bytes, now: Time): Object
  {
    if Moves(o, ageDays, fromClass, now) then o.(storageClass := toClass) else o
  }

  function TransitionObjects(v: Objects, ageDays: int, fromClass: Bytes, toClass: Bytes, now: Time): Objects
  {
    map p | p in v :: Moved(v[p], ageDays, fromClass, toClass, now)
  }

  ghost function MovedPaths(v: Objects, ageDays: int, fromClass: Bytes, now: Time): set<Bytes>
  {
    set p | p in v && Moves(v[p], ageDays, fromClass, now)
  }

  lemma MovedPathsAre(v: Objects, ageDays: int, fromClass: Bytes, toClass: Bytes, now: Time)
    ensures MovedPaths(v, ageDays, fromClass, now) <= v.Keys
    ensures forall p :: p in v ==> (p in MovedPaths(v, ageDays, fromClass, now) <==> Moves(v[p], ageDays, fromClass, now))
    ensures var after := TransitionObjects(v, ageDays, fromClass, toClass, now);
            after.Keys == v.Keys && forall p :: p in v ==> after[p] == Moved(v[p], ageDays, fromClass, toClass, now)
  {
  }

  /** How many of the paths to move are still to be visited. */
  ghost function Remaining(all: set<Bytes>, todo: set<Bytes>): nat { |all * todo| }

  lemma RemainingSteps(all: set<Bytes>, todo: set<Bytes>, p: Bytes)
    ensures Remaining(all, {}) == 0
    ensures all <= todo ==> Remaining(all, todo) == |all|
    ensures p in todo ==> Remaining(all, todo) == Remaining(all, todo - {p}) + if p in all then 1 else 0
  {
    assert all * {} == {};
    if all <= todo {
      assert all * todo == all;
    }
    if p in todo && p in all {
      assert all * todo == all * (todo - {p}) + {p};
    } else if p in todo {
      assert all * todo == all * (todo - {p});
    }
  }

  datatype Op =
    | Put(path: Bytes, body: Bytes, opts: PutOptions)
    | Delete(path: Bytes)
    | Transition(ageDays: int, fromClass: Bytes, toClass: Bytes)
    | Idle

  function ApplyOp(v: Objects, op: Op, now: Time): Objects
  {
    match op
    case Put(path, body, opts) => PutObject(v, path, body, opts, now)
    case Delete(path) => DeleteObject(v, path, now)
    case Transition(age, a, b) => TransitionObjects(v, age, a, b, now)
    case Idle => v
  }

  function RunOps(v: Objects, ops: seq<(Time, Op)>): Objects
    decreases |ops|
  {
    if ops == [] then v else RunOps(ApplyOp(v, ops[0].1, ops[0].0), ops[1..])
  }

  /** The same stored thing: only its storage class may differ. */
  predicate SameContent(a: Object, b: Object)
  {
    a.(storageClass := b.storageClass) == b
  }

  ghost predicate Holds(v: Objects, path: Bytes, o: Object)
  {
    path in v && SameContent(v[path], o)
  }

  lemma OpKeepsRetained(v: Objects, op: Op, now: Time, path: Bytes, o: Object)
    requires Holds(v, path, o) && Retained(o, now)
    ensures Holds(ApplyOp(v, op, now), path, o)
  {
  }

  /** WORM safety over every run: as long as the clock does not run backwards, an
      object that is still retained at the end has been there, unaltered, all along. */
  lemma {:induction false} RunKeepsRetained(v: Objects, ops: seq<(Time, Op)>, path: Bytes, o: Object, end: Time)
    requires Holds(v, path, o) && Retained(o, end)
    requires forall i :: 0 <= i < |ops| ==> ops[i].0 <= end
    ensures Holds(RunOps(v, ops), path, o)
    decreases |ops|
  {
    if ops != [] {
      RetainedEarlier(o, ops[0].0, end);
      OpKeepsRetained(v, ops[0].1, ops[0].0, path, o);
      RunKeepsRetained(ApplyOp(v, ops[0].1, ops[0].0), ops[1..], path, o, end);
    }
  }

  // ---- what was asked for at a put protects the object ----

  /** An instant no earlier than any operation of a run, and one of theirs or `now`. */
  lemma {:induction false} LatestTime(ops: seq<(Time, Op)>, now: Time) returns (end: Time)
    ensures now <= end && forall i :: 0 <= i < |ops| ==> ops[i].0 <= end
    ensures end == now || exists i :: 0 <= i < |ops| && ops[i].0 == end
  {
    end := now;
    if ops != [] {
      var rest := LatestTime(ops[1..], now);
      end := if rest < ops[0].0 then ops[0].0 else rest;
      assert forall i :: 1 <= i < |ops| ==> ops[i] == ops[1..][i - 1];
    }
  }

  /** A put with a legal hold is kept by every later run, and one with retention by every
      run that ends before the days asked for have passed: there, with its body. */
  lemma PutIsKept(v: Objects, path: Bytes, body: Bytes, opts: PutOptions, now: Time, ops: seq<(Time, Op)>)
    requires MayPut(v, path, now)
    requires opts.legalHold
             || (0 < opts.retentionDays <= 106751 && forall i :: 0 <= i < |ops| ==> ops[i].0 < now + opts.retentionDays * 86_400_000_000_000)
    ensures var end := RunOps(PutObject(v, path, body, opts, now), ops);
            path in end && end[path].body == body
  {
    hide RunOps;
    var o := NewObject(body, opts, now);
    var end := LatestTime(ops, now);
    assert Retained(o, end);
    RunKeepsRetained(PutObject(v, path, body, opts, now), ops, path, o, end);
  }

  /** No more and no less: what a put stored can be deleted or overwritten at an instant if
      and only if there is no hold and the days asked for, if any, have passed. */
  lemma PutProtectsExactly(v: Objects, path: Bytes, body: Bytes, opts: PutOptions, now: Time, later: Time)
    requires MayPut(v, path, now) && opts.retentionDays <= 106751
    ensures var put := PutObject(v, path, body, opts, now);
            var protected := opts.legalHold || (opts.retentionDays > 0 && later < now + opts.retentionDays * 86_400_000_000_000);
            && (path in DeleteObject(put, path, later) <==> protected)
            && (MayPut(put, path, later) <==> !protected)
  {
    if opts.retentionDays > 0 {
      assert 0 < opts.retentionDays * DAY <= 0x7fff_ffff_ffff_ffff;
    }
  }

  /** The whole effect of a put: refused, it changes nothing; accepted, it changes this path
      only, and the storage class is the one asked for or "STANDARD". */
  lemma PutMeans(v: Objects, path: Bytes, body: Bytes, opts: PutOptions, now: Time)
    ensures var out := PutObject(v, path, body, opts, now);
            && (!MayPut(v, path, now) ==> out == v)
            && (MayPut(v, path, now) ==>
                  && out - {path} == v - {path} && path in out
                  && out[path].body == body && out[path].createdAt == now
                  && out[path].retentionDays == opts.retentionDays && out[path].legalHold == opts.legalHold
                  && (opts.storageClass != [] ==> out[path].storageClass == opts.storageClass)
                  && (opts.storageClass == [] ==> Spells(out[path].storageClass, "STANDARD")))
    ensures path !in v ==> MayPut(v, path, now)
  {
  }

  /** A lifecycle move touches the storage class only, and just of those objects in the
      class that are at least as old as the rule asks. */
  lemma TransitionMeans(v: Objects, ageDays: int, fromClass: Bytes, toClass: Bytes, now: Time, path: Bytes)
    requires -106751 <= ageDays <= 106751 && path in v
    ensures var out := TransitionObjects(v, ageDays, fromClass, toClass, now);
            && out.Keys == v.Keys && SameContent(v[path], out[path])
            && out[path].storageClass == if v[path].storageClass == fromClass && now - v[path].createdAt >= ageDays * 86_400_000_000_000
                                         then toClass else v[path].storageClass
  {
    assert -ageDays * DAY == -(ageDays * 86_400_000_000_000);
  }

  // ---- whose body is stored ----

  /** The i-th operation of a run writes or deletes the object at this path, and is
      not refused. */
  predicate Changes(v: Objects, ops: seq<(Time, Op)>, i: nat, path: Bytes)
    requires i < |ops|
  {
    var u, now := RunOps(v, ops[..i]), ops[i].0;
    match ops[i].1
    case Put(p, _, _) => p == path && MayPut(u, path, now)
    case Delete(p) => p == path && path in u && !Retained(u[path], now)
    case _ => false
  }

  /** Among the first n operations, the i-th wrote the body and none after it changed
      the object. */
  ghost predicate LastWrite(v: Objects, ops: seq<(Time, Op)>, n: nat, path: Bytes, body: Bytes, i: nat)
    requires i < n <= |ops|
  {
    && Changes(v, ops, i, path) && ops[i].1.Put? && ops[i].1.body == body
    && forall k :: i < k < n ==> !Changes(v, ops, k, path)
  }

  ghost predicate LastWritten(v: Objects, ops: seq<(Time, Op)>, n: nat, path: Bytes, body: Bytes)
    requires n <= |ops|
  {
    exists i :: 0 <= i < n && LastWrite(v, ops, n, path, body, i)
  }

  ghost predicate NeverChanged(v: Objects, ops: seq<(Time, Op)>, n: nat, path: Bytes)
    requires n <= |ops|
  {
    forall k :: 0 <= k < n ==> !Changes(v, ops, k, path)
  }

  predicate HasBody(v: Objects, path: Bytes, body: Bytes)
  {
    path in v && v[path].body == body
  }

  lemma {:induction false} RunSnoc(v: Objects, ops: seq<(Time, Op)>, n: nat)
    requires n < |ops|
    ensures RunOps(v, ops[..n + 1]) == ApplyOp(RunOps(v, ops[..n]), ops[n].1, ops[n].0)
    decreases n
  {
    hide ApplyOp;
    if n > 0 {
      RunSnoc(ApplyOp(v, ops[0].1, ops[0].0), ops[1..], n - 1);
      assert ops[..n + 1][1..] == ops[1..][..n] && ops[..n][1..] == ops[1..][..n - 1];
    }
  }

  /** What one operation does to the body at a path. */
  lemma StepBody(v: Objects, ops: seq<(Time, Op)>, n: nat, path: Bytes, body: Bytes)
    requires n < |ops|
    ensures HasBody(RunOps(v, ops[..n + 1]), path, body)
            <==> if Changes(v, ops, n, path) then ops[n].1.Put? && ops[n].1.body == body
                 else HasBody(RunOps(v, ops[..n]), path, body)
  {
    hide RunOps, Retained;
    RunSnoc(v, ops, n);
  }

  /** A body is stored at a path if and only if the last operation that changed the
      object there was a put of this body, or none changed it and it was there before. */
  lemma {:induction false} StoredIffLastWritten(v: Objects, ops: seq<(Time, Op)>, n: nat, path: Bytes, body: Bytes)
    requires n <= |ops|
    ensures HasBody(RunOps(v, ops[..n]), path, body)
            <==> LastWritten(v, ops, n, path, body) || (HasBody(v, path, body) && NeverChanged(v, ops, n, path))
  {
    hide RunOps, Changes, HasBody;
    if n == 0 {
      assert RunOps(v, ops[..0]) == v by { RunNothing(v, ops); }
    } else {
      StoredIffLastWritten(v, ops, n - 1, path, body);
      StepBody(v, ops, n - 1, path, body);
      LastWriteStep(v, ops, n - 1, path, body);
    }
  }

  lemma RunNothing(v: Objects, ops: seq<(Time, Op)>)
    ensures RunOps(v, ops[..0]) == v
  {
  }

  lemma LastWriteStep(v: Objects, ops: seq<(Time, Op)>, n: nat, path: Bytes, body: Bytes)
    requires n < |ops|
    ensures LastWritten(v, ops, n + 1, path, body)
            <==> if Changes(v, ops, n, path) then ops[n].1.Put? && ops[n].1.body == body
                 else LastWritten(v, ops, n, path, body)
    ensures NeverChanged(v, ops, n + 1, path) <==> NeverChanged(v, ops, n, path) && !Changes(v, ops, n, path)
  {
    hide Changes;
    if Changes(v, ops, n, path) && ops[n].1.Put? && ops[n].1.body == body {
      assert LastWrite(v, ops, n + 1, path, body, n);
    }
    if !Changes(v, ops, n, path) && LastWritten(v, ops, n, path, body) {
      var i :| 0 <= i < n && LastWrite(v, ops, n, path, body, i);
      assert LastWrite(v, ops, n + 1, path, body, i);
    }
    if LastWritten(v, ops, n + 1, path, body) {
      var i :| 0 <= i < n + 1 && LastWrite(v, ops, n + 1, path, body, i);
      assert i < n ==> LastWrite(v, ops, n, path, body, i);
    }
  }

  // ---- the limit of retention ----

  /** The retention actually enforced is the retention asked for, at every instant,
      exactly up to 106751 days: beyond, the int64 nanosecond count wraps around. */
  lemma RetentionHonouredIff(o: Object)
    requires o.retentionDays > 0 && !o.legalHold
    ensures (forall t: Time :: o.createdAt <= t < o.createdAt + o.retentionDays * DAY ==> Retained(o, t))
            <==> o.retentionDays <= 106751
  {
    var asked := o.retentionDays * DAY;
    var kept := Wrap64(asked);
    if o.retentionDays > 106751 {
      assert asked >= 106752 * DAY > 0x7fff_ffff_ffff_ffff;
      var t := o.createdAt + if kept > 0 then kept else 0;
      assert kept < asked;
      assert !Retained(o, t);
    } else {
      assert asked <= 106751 * DAY <= 0x7fff_ffff_ffff_ffff;
    }
  }

  /** One day more, and the object is not retained even at the instant it is written. */
  lemma LongRetentionIsNone(o: Object)
    requires o.retentionDays == 106752 && !o.legalHold
    ensures !Retained(o, o.createdAt)
  {
  }

  // ---- the in-memory store ----

  datatype PutResult = Stored(key: Bytes) | RetentionActive(key: Bytes)

  datatype DeleteResult = Deleted | NotFound | StillRetained

  /** A heap-allocated object record, which knows its own bucket and key. */
  class Cell {
    const path: Bytes
    var obj: Object

    constructor (p: Bytes, o: Object)
      ensures path == p && obj == o
    {
      path, obj := p, o;
    }
  }

  class Fake {
    var objects: map<Bytes, Cell>
    ghost var vault: Objects
    ghost var cells: set<Cell>

    ghost predicate Valid()
      reads this, cells
    {
      && objects.Keys == vault.Keys
      && (forall p :: p in objects ==> objects[p] in cells && objects[p].path == p && objects[p].obj == vault[p])
    }

    constructor ()
      ensures Valid() && vault == map[] && cells == {}
    {
      objects, vault, cells := map[], map[], {};
    }

    method Put(bucket: Bytes, key: Bytes, opts: PutOptions, body: Bytes, now: Time) returns (r: PutResult)
      requires Valid()
      modifies this
      ensures Valid() && fresh(cells - old(cells))
      ensures vault == PutObject(old(vault), Path(bucket, key), body, opts, now)
      ensures r == if MayPut(old(vault), Path(bucket, key), now) then Stored(key) else RetentionActive(key)
    {
      var path := bucket + [SLASH] + key;
      if path in objects {
        var o := objects[path].obj;
        if Retained(o, now) {
          return RetentionActive(key);
        }
      }
      var o := NewObject(body, opts, now);
      var c := new Cell(path, o);
      objects := objects[path := c];
      cells := cells + {c};
      vault := vault[path := o];
      return Stored(key);
    }

    method Get(bucket: Bytes, key: Bytes) returns (r: Option<Bytes>)
      requires Valid()
      ensures r == var p := Path(bucket, key); if p in vault then Some(vault[p].body) else None
    {
      var path := bucket + [SLASH] + key;
      if path !in objects {
        return None;
      }
      return Some(objects[path].obj.body);
    }

    method Delete(bucket: Bytes, key: Bytes, now: Time) returns (r: DeleteResult)
      requires Valid()
      modifies this
      ensures Valid() && cells == old(cells)
      ensures vault == DeleteObject(old(vault), Path(bucket, key), now)
      ensures r == var p := Path(bucket, key);
                   if p !in old(vault) then NotFound else if Retained(old(vault)[p], now) then StillRetained else Deleted
    {
      var path := bucket + [SLASH] + key;
      if path !in objects {
        return NotFound;
      }
      if Retained(objects[path].obj, now) {
        return StillRetained;
      }
      objects := objects - {path};
      vault := vault - {path};
      return Deleted;
    }

    /** Visits the objects in an arbitrary order and rewrites storage classes in place. */
    method ApplyTransition(ageDays: int, fromClass: Bytes, toClass: Bytes, now: Time) returns (n: nat)
      requires Valid()
      modifies `vault, cells
      ensures Valid()
      ensures vault == TransitionObjects(old(vault), ageDays, fromClass, toClass, now)
      ensures n == |MovedPaths(old(vault), ageDays, fromClass, now)|
    {
      hide Moves, Moved, MovedPaths, TransitionObjects, Remaining;
      ghost var was, after := vault, TransitionObjects(vault, ageDays, fromClass, toClass, now);
      ghost var all := MovedPaths(vault, ageDays, fromClass, now);
      MovedPathsAre(was, ageDays, fromClass, toClass, now);
      n := 0;
      var todo := objects.Keys;
      RemainingSteps(all, todo, []);
      while todo != {}
        invariant todo <= objects.Keys && unchanged(`objects) && vault == was
        invariant forall p :: p in todo ==> objects[p].obj == was[p]
        invariant forall p :: p in objects && p !in todo ==> objects[p].obj == after[p]
        invariant n + Remaining(all, todo) == |all|
        decreases todo
      {
        var p :| p in todo;
        var moves := MoveCell(objects[p], ageDays, fromClass, toClass, now);
        RemainingSteps(all, todo, p);
        todo := todo - {p};
        n := if moves then n + 1 else n;
      }
      RemainingSteps(all, todo, []);
      vault := after;
    }

    static method MoveCell(c: Cell, ageDays: int, fromClass: Bytes, toClass: Bytes, now: Time) returns (moves: bool)
      modifies c
      ensures moves <==> Moves(old(c.obj), ageDays, fromClass, now)
      ensures c.obj == Moved(old(c.obj), ageDays, fromClass, toClass, now)
    {
      hide Wrap64;
      var cutoff := now + Wrap64(-ageDays * DAY);
      moves := false;
      if c.obj.storageClass != fromClass {
        return;
      }
      if c.obj.createdAt > cutoff {
        return;
      }
      c.obj := c.obj.(storageClass := toClass);
      moves := true;
    }
  }
}

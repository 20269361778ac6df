/** The stored event record, its position key, and the search filter. */
module Events {
  import opened ByteStrings

  /** An instant in nanoseconds since the Unix epoch. */
  type Time = int

  /** Go's zero time.Time, 1 January of year 1, the instant `IsZero` tests for. */
  const ZERO_TIME: Time := -62135596800 * 1_000_000_000

  /** The nine fields this_hash covers. */
  datatype Sealed = Sealed(
    id: Bytes, ts: Time, service: Bytes, actor: Bytes, action: Bytes,
    targetType: Bytes, targetID: Bytes, payloadHash: Bytes, prevHash: Bytes)

  /** A stored row: the hashed fields, their hash, and the rest. */
  datatype Event = Event(
    sealed: Sealed, thisHash: Bytes, payloadRef: Bytes, redacted: bool,
    anchored: bool, legalHold: bool)

  /** this_hash as a function of the hashed fields. */
  type EventHash = Sealed -> Digest

  /** The (ts, id) pair that orders events; a page cursor is one too. */
  datatype Key = Key(ts: Time, id: Bytes)

  const NO_CURSOR := Key(ZERO_TIME, [])

  function KeyOf(e: Event): Key { Key(e.sealed.ts, e.sealed.id) }

  predicate KeyLess(a: Key, b: Key)
  {
    a.ts < b.ts || (a.ts == b.ts && StrLess(a.id, b.id))
  }

  predicate KeyAtMost(a: Key, b: Key)
  {
    a == b || KeyLess(a, b)
  }

  predicate Before(a: Event, b: Event)
  {
    KeyLess(KeyOf(a), KeyOf(b))
  }

  lemma KeyLessIrreflexive(a: Key)
    ensures !KeyLess(a, a)
  {
    StrLessIrreflexive(a.id);
  }

  lemma KeyLessTotal(a: Key, b: Key)
    ensures KeyLess(a, b) || a == b || KeyLess(b, a)
  {
    StrLessTotal(a.id, b.id);
  }

  lemma KeyLessTransitive(a: Key, b: Key, c: Key)
    requires KeyLess(a, b) && KeyLess(b, c)
    ensures KeyLess(a, c)
  {
    if a.ts == b.ts == c.ts {
      StrLessTransitive(a.id, b.id, c.id);
    }
  }

  lemma KeyLessAsymmetric(a: Key, b: Key)
    requires KeyLess(a, b)
    ensures !KeyLess(b, a) && a != b
  {
    KeyLessIrreflexive(a);
    if KeyLess(b, a) {
      KeyLessTransitive(a, b, a);
    }
  }

  /** Strictly increasing in (ts, id). */
  ghost predicate Sorted(es: seq<Event>)
  {
    forall i, j :: 0 <= i < j < |es| ==> Before(es[i], es[j])
  }

  ghost predicate DistinctIds(es: seq<Event>)
  {
    forall i, j :: 0 <= i < j < |es| ==> es[i].sealed.id != es[j].sealed.id
  }

  /** A hash that tells these events apart exactly by their hashed fields. */
  ghost predicate Faithful(hash: EventHash, es: seq<Event>)
  {
    forall a, b :: a in es && b in es && hash(a.sealed) == hash(b.sealed) ==> a.sealed == b.sealed
  }

  /** None of these events hashes to the genesis sentinel. */
  ghost predicate NoneHashesToZero(hash: EventHash, es: seq<Event>)
  {
    forall a :: a in es ==> hash(a.sealed) != ZERO_HASH
  }

  /** Equal but for the two flags that may change after the insert. */
  predicate SameButFlags(a: Event, b: Event)
  {
    a.(anchored := b.anchored, legalHold := b.legalHold) == b
  }

  ghost predicate SameRowsButFlags(a: seq<Event>, b: seq<Event>)
  {
    |a| == |b| && forall i :: 0 <= i < |a| ==> SameButFlags(a[i], b[i])
  }

  lemma SortedKeyApart(es: seq<Event>, i: nat, j: nat)
    requires Sorted(es) && i < |es| && j < |es|
    ensures Before(es[i], es[j]) <==> i < j
  {
    if i == j {
      KeyLessIrreflexive(KeyOf(es[i]));
    } else if j < i {
      KeyLessAsymmetric(KeyOf(es[j]), KeyOf(es[i]));
    }
  }

  datatype Filter = Filter(
    from: Time, to: Time, service: Bytes, actor: Bytes, action: Bytes,
    targetType: Bytes, targetID: Bytes, limit: int, cursor: Key)

  const NO_FILTER := Filter(ZERO_TIME, ZERO_TIME, [], [], [], [], [], 0, NO_CURSOR)
}

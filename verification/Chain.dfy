/** The hash chain: per-link verification, the chain walk, and what a verified
    walk and its root hash tell about the events walked. */
module Chain {
  import opened ByteStrings
  import opened Events

  datatype Status = StatusOK | StatusBroken | StatusGap

  datatype VerifyResult = VerifyResult(status: Status, event: Option<Event>)

  /** The stored this_hash is the hash of the stored fields. */
  predicate Authentic(hash: EventHash, e: Event)
  {
    hash(e.sealed) == e.thisHash
  }

  predicate Linked(a: Event, b: Event)
  {
    b.sealed.prevHash == a.thisHash
  }

  /** What the walk is for: every hash recomputes and every link closes. The
      prev_hash of the first event is not compared with anything. */
  ghost predicate Intact(hash: EventHash, es: seq<Event>)
  {
    && (forall i :: 0 <= i < |es| ==> Authentic(hash, es[i]))
    && (forall i, j :: 0 <= i < |es| && j == i + 1 < |es| ==> Linked(es[i], es[j]))
  }

  function RootOf(es: seq<Event>): Bytes
  {
    if es == [] then ZERO_HASH else es[|es| - 1].thisHash
  }

  function VerifyEvent(hash: EventHash, e: Event, prev: Option<Bytes>): (s: Status)
    ensures s == StatusOK <==> Authentic(hash, e) && (prev.Some? ==> prev.value == e.sealed.prevHash)
    ensures s == StatusBroken <==> !Authentic(hash, e)
  {
    if hash(e.sealed) != e.thisHash then StatusBroken
    else if prev.Some? && prev.value != e.sealed.prevHash then StatusGap
    else StatusOK
  }

  /** k is the first position at which the walk finds a fault, and s is its kind. */
  ghost predicate FirstFault(hash: EventHash, es: seq<Event>, k: int, s: Status)
  {
    && 0 <= k < |es|
    && Intact(hash, es[..k])
    && (s == StatusBroken || s == StatusGap)
    && (s == StatusBroken <==> !Authentic(hash, es[k]))
    && (s == StatusGap ==> k > 0 && es[k].sealed.prevHash != es[k - 1].thisHash)
  }

  method VerifyChain(hash: EventHash, es: seq<Event>) returns (res: VerifyResult, root: Option<Bytes>)
    ensures res.status == StatusOK <==> Intact(hash, es)
    ensures Intact(hash, es) ==> res.event == None && root == Some(RootOf(es))
    ensures es == [] ==> root == Some(ZERO_HASH)
    ensures !Intact(hash, es) ==>
              root == None && exists k :: FirstFault(hash, es, k, res.status) && res.event == Some(es[k])
  {
    var prev: Bytes := ZERO_HASH;
    for i := 0 to |es|
      invariant Intact(hash, es[..i])
      invariant prev == RootOf(es[..i])
    {
      var expected := if i == 0 then None else Some(prev);
      var s := VerifyEvent(hash, es[i], expected);
      if s != StatusOK {
        assert FirstFault(hash, es, i, s);
        return VerifyResult(s, Some(es[i])), None;
      }
      prev := es[i].thisHash;
    }
    assert es[..|es|] == es;
    return VerifyResult(StatusOK, None), Some(prev);
  }

  lemma HashIdentifies(hash: EventHash, es: seq<Event>, a: Event, b: Event)
    requires Faithful(hash, es) && a in es && b in es
    requires Authentic(hash, a) && Authentic(hash, b)
    ensures a.thisHash == b.thisHash <==> a.sealed == b.sealed
  {
  }

  // ---- contiguity ----

  /** The events at the given positions, in the given order, repeats allowed. */
  function Pick(es: seq<Event>, idx: seq<nat>): (p: seq<Event>)
    requires forall j :: 0 <= j < |idx| ==> idx[j] < |es|
    ensures |p| == |idx| && forall j :: 0 <= j < |idx| ==> p[j] == es[idx[j]]
  {
    if idx == [] then [] else [es[idx[0]]] + Pick(es, idx[1..])
  }

  ghost predicate Consecutive(idx: seq<nat>)
  {
    forall j, k :: 0 <= j < |idx| && k == j + 1 < |idx| ==> idx[k] == idx[j] + 1
  }

  ghost predicate Increasing(idx: seq<nat>)
  {
    forall j, k :: 0 <= j < k < |idx| ==> idx[j] < idx[k]
  }

  lemma LinkIff(hash: EventHash, es: seq<Event>, a: nat, b: nat)
    requires Intact(hash, es) && DistinctIds(es) && Faithful(hash, es)
    requires 0 < a < |es| && b < |es|
    ensures Linked(es[b], es[a]) <==> b == a - 1
  {
    HashIdentifies(hash, es, es[a - 1], es[b]);
  }

  ghost predicate GenesisUnreferenced(es: seq<Event>)
  {
    es != [] && forall e :: e in es ==> es[0].sealed.prevHash != e.thisHash
  }

  lemma PickAccepted(hash: EventHash, es: seq<Event>, idx: seq<nat>)
    requires Intact(hash, es) && DistinctIds(es) && Faithful(hash, es)
    requires forall j :: 0 <= j < |idx| ==> idx[j] < |es|
    requires (forall j :: 0 < j < |idx| ==> idx[j] > 0) || GenesisUnreferenced(es)
    ensures Intact(hash, Pick(es, idx)) <==> Consecutive(idx)
  {
    var p := Pick(es, idx);
    forall j, k | 0 <= j < |idx| && k == j + 1 < |idx|
      ensures Linked(p[j], p[k]) <==> idx[k] == idx[j] + 1
    {
      if idx[k] > 0 {
        LinkIff(hash, es, idx[k], idx[j]);
      }
    }
  }

  /** Deleting events from a verified chain passes the walk exactly when what is
      left is empty or one contiguous segment: interior deletion is always caught. */
  lemma SubsequenceAcceptedIffContiguous(hash: EventHash, es: seq<Event>, idx: seq<nat>)
    requires Intact(hash, es) && DistinctIds(es) && Faithful(hash, es)
    requires Increasing(idx) && forall j :: 0 <= j < |idx| ==> idx[j] < |es|
    ensures Intact(hash, Pick(es, idx)) <==> Consecutive(idx)
  {
    forall j | 0 < j < |idx|
      ensures idx[j] > 0
    {
      assert idx[0] < idx[j];
    }
    PickAccepted(hash, es, idx);
  }

  /** With a true genesis event, so does reordering or repeating them: of all
      arrangements of the events, only the contiguous segments in order pass. */
  lemma ArrangementAcceptedIffContiguous(hash: EventHash, es: seq<Event>, idx: seq<nat>)
    requires Intact(hash, es) && DistinctIds(es) && Faithful(hash, es)
    requires NoneHashesToZero(hash, es) && es != [] && es[0].sealed.prevHash == ZERO_HASH
    requires forall j :: 0 <= j < |idx| ==> idx[j] < |es|
    ensures Intact(hash, Pick(es, idx)) <==> Consecutive(idx)
  {
    PickAccepted(hash, es, idx);
  }

  // ---- the root binds history ----

  function FromEnd(es: seq<Event>, i: nat): Event
    requires i < |es|
  {
    es[|es| - 1 - i]
  }

  lemma {:induction false} RootBindsFromEnd(hash: EventHash, a: seq<Event>, b: seq<Event>, i: nat)
    requires Intact(hash, a) && Intact(hash, b) && Faithful(hash, a + b)
    requires i < |a| && i < |b| && RootOf(a) == RootOf(b)
    ensures FromEnd(a, i).sealed == FromEnd(b, i).sealed && FromEnd(a, i).thisHash == FromEnd(b, i).thisHash
  {
    if i > 0 {
      RootBindsFromEnd(hash, a, b, i - 1);
    }
    HashIdentifies(hash, a + b, FromEnd(a, i), FromEnd(b, i));
  }

  /** The shorter walk is a suffix of the longer one in every hashed field. */
  ghost predicate SuffixOf(a: seq<Event>, b: seq<Event>)
  {
    |a| <= |b| && forall i :: 0 <= i < |a| ==> FromEnd(a, i).sealed == FromEnd(b, i).sealed
  }

  /** Two verified walks have one root exactly when they hold the same history as
      far back as the shorter one goes. */
  lemma RootBindsHistory(hash: EventHash, a: seq<Event>, b: seq<Event>)
    requires a != [] && b != [] && Intact(hash, a) && Intact(hash, b) && Faithful(hash, a + b)
    ensures RootOf(a) == RootOf(b) <==> SuffixOf(a, b) || SuffixOf(b, a)
  {
    HashIdentifies(hash, a + b, FromEnd(a, 0), FromEnd(b, 0));
    if RootOf(a) == RootOf(b) {
      forall i | 0 <= i < |a| && i < |b|
        ensures FromEnd(a, i).sealed == FromEnd(b, i).sealed
      {
        RootBindsFromEnd(hash, a, b, i);
      }
      if |a| > |b| {
        assert forall i :: 0 <= i < |b| ==> FromEnd(b, i).sealed == FromEnd(a, i).sealed;
      }
    }
  }

  /** The root of a chain that starts at genesis identifies the whole chain: its
      length and every hashed field of every event. */
  lemma RootIdentifiesChain(hash: EventHash, a: seq<Event>, b: seq<Event>)
    requires a != [] && b != [] && Intact(hash, a) && Intact(hash, b)
    requires Faithful(hash, a + b) && NoneHashesToZero(hash, a + b)
    requires a[0].sealed.prevHash == ZERO_HASH && b[0].sealed.prevHash == ZERO_HASH
    ensures RootOf(a) == RootOf(b) <==>
            |a| == |b| && forall i :: 0 <= i < |a| ==> a[i].sealed == b[i].sealed
  {
    if FromEnd(a, 0).sealed == FromEnd(b, 0).sealed {
      HashIdentifies(hash, a + b, FromEnd(a, 0), FromEnd(b, 0));
    }
    if RootOf(a) == RootOf(b) {
      RootBindsSameLength(hash, a, b);
      RootBindsSameLength(hash, b, a);
      forall i | 0 <= i < |a|
        ensures a[i].sealed == b[i].sealed
      {
        RootBindsFromEnd(hash, a, b, |a| - 1 - i);
      }
    }
  }

  lemma RootBindsSameLength(hash: EventHash, a: seq<Event>, b: seq<Event>)
    requires a != [] && b != [] && Intact(hash, a) && Intact(hash, b)
    requires Faithful(hash, a + b) && NoneHashesToZero(hash, a + b)
    requires a[0].sealed.prevHash == ZERO_HASH && RootOf(a) == RootOf(b)
    ensures |a| >= |b|
  {
    if |a| < |b| {
      var x, e := FromEnd(b, |a|), FromEnd(b, |a| - 1);
      assert x in a + b && Authentic(hash, x) && Linked(x, e);
      RootBindsFromEnd(hash, a, b, |a| - 1);
    }
  }

  /** The same hashed fields and the same stored this_hash at every position. */
  ghost predicate SameChain(a: seq<Event>, b: seq<Event>)
  {
    |a| == |b| && forall i :: 0 <= i < |a| ==> a[i].sealed == b[i].sealed && a[i].thisHash == b[i].thisHash
  }

  /** What a recorded root detects, exactly: a rewritten copy of a verified chain passes
      the walk with the recorded root if and only if no hashed field and no stored hash
      of any event was changed. */
  lemma TamperingDetectedIff(hash: EventHash, es: seq<Event>, tampered: seq<Event>)
    requires Intact(hash, es) && |tampered| == |es| && Faithful(hash, es + tampered)
    ensures Intact(hash, tampered) && RootOf(tampered) == RootOf(es) <==> SameChain(es, tampered)
  {
    if Intact(hash, tampered) && RootOf(tampered) == RootOf(es) {
      forall i | 0 <= i < |es|
        ensures es[i].sealed == tampered[i].sealed && es[i].thisHash == tampered[i].thisHash
      {
        RootBindsFromEnd(hash, es, tampered, |es| - 1 - i);
      }
    }
    if SameChain(es, tampered) {
      OnlyChainMatters(hash, es, tampered);
    }
  }

  // ---- windows and flags ----

  lemma IntactSlice(hash: EventHash, es: seq<Event>, lo: nat, hi: nat)
    requires Intact(hash, es) && lo <= hi <= |es|
    ensures Intact(hash, es[lo..hi])
  {
  }

  /** The payload reference, the redaction mark and the two flags are outside the hash:
      events that agree in the rest get the same verdict and the same root. */
  lemma OnlyChainMatters(hash: EventHash, a: seq<Event>, b: seq<Event>)
    requires SameChain(a, b)
    ensures Intact(hash, a) <==> Intact(hash, b)
    ensures RootOf(a) == RootOf(b)
  {
    hide Intact;
    if Intact(hash, a) {
      SameChainIntact(hash, a, b);
    }
    if Intact(hash, b) {
      SameChainIntact(hash, b, a);
    }
  }

  lemma SameChainIntact(hash: EventHash, a: seq<Event>, b: seq<Event>)
    requires SameChain(a, b) && Intact(hash, a)
    ensures Intact(hash, b)
  {
    forall i, j | 0 <= i < |b| && j == i + 1 < |b|
      ensures Linked(b[i], b[j])
    {
      assert Linked(a[i], a[j]);
    }
    forall i | 0 <= i < |b|
      ensures Authentic(hash, b[i])
    {
      assert Authentic(hash, a[i]);
    }
  }

  /** In particular, changing flags never changes a verdict. */
  lemma FlagsOutsideHash(hash: EventHash, a: seq<Event>, b: seq<Event>)
    requires SameRowsButFlags(a, b)
    ensures Intact(hash, a) <==> Intact(hash, b)
    ensures RootOf(a) == RootOf(b)
  {
    hide Intact;
    assert forall i :: 0 <= i < |a| ==> SameButFlags(a[i], b[i]);
    OnlyChainMatters(hash, a, b);
  }
}

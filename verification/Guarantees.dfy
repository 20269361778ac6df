/** The chain guarantees for the hash the service really uses: SHA-256 over the
    canonical encoding, for every hash function without collisions among the
    encodings in play. */
module Guarantees {
  import opened ByteStrings
  import opened Events
  import opened Canonical
  import opened Chain
  import I = Ingest
  import A = Arrival

  ghost predicate GoodHashes(sha: Sha256, es: seq<Event>)
  {
    && CollisionFree(sha, es)
    && (forall e :: e in es ==> Encodable(e.sealed))
    && (forall e {:trigger Encode(e.sealed)} :: e in es ==> sha(Encode(e.sealed)) != ZERO_HASH)
  }

  lemma GoodHashesSuffice(sha: Sha256, es: seq<Event>)
    requires GoodHashes(sha, es)
    ensures Faithful(CanonicalSum(sha), es) && NoneHashesToZero(CanonicalSum(sha), es)
  {
    CanonicalSumFaithful(sha, es);
  }

  /** A rewritten copy of a verified chain verifies with the recorded root if and only
      if no hashed field and no stored hash was changed. */
  lemma AnyChangeShows(sha: Sha256, es: seq<Event>, tampered: seq<Event>)
    requires Intact(CanonicalSum(sha), es) && GoodHashes(sha, es + tampered) && |tampered| == |es|
    ensures Intact(CanonicalSum(sha), tampered) && RootOf(tampered) == RootOf(es) <==> SameChain(es, tampered)
  {
    hide CanonicalSum, GoodHashes;
    GoodHashesSuffice(sha, es + tampered);
    TamperingDetectedIff(CanonicalSum(sha), es, tampered);
  }

  /** A root that a signed anchor vouches for identifies the chain from genesis on. */
  lemma RootVouchesForChain(sha: Sha256, a: seq<Event>, b: seq<Event>)
    requires a != [] && b != [] && Intact(CanonicalSum(sha), a) && Intact(CanonicalSum(sha), b)
    requires GoodHashes(sha, a + b) && a[0].sealed.prevHash == ZERO_HASH && b[0].sealed.prevHash == ZERO_HASH
    ensures RootOf(a) == RootOf(b) <==> |a| == |b| && forall i :: 0 <= i < |a| ==> a[i].sealed == b[i].sealed
  {
    hide CanonicalSum, GoodHashes;
    GoodHashesSuffice(sha, a + b);
    RootIdentifiesChain(CanonicalSum(sha), a, b);
  }

  /** The ingested table verifies exactly when the first accepted message of each id
      came in (ts, id) order. */
  lemma IngestedChainVerifiesIffInOrder(cfg: I.Config, msgs: seq<A.Message>)
    requires cfg.hash == CanonicalSum(cfg.sha) && GoodHashes(cfg.sha, A.Run(cfg, msgs).log)
    ensures Intact(cfg.hash, A.Run(cfg, msgs).rows) <==> A.MessagesInOrder(cfg, msgs)
  {
    hide CanonicalSum, GoodHashes, A.Run, A.MessagesInOrder;
    GoodHashesSuffice(cfg.sha, A.Run(cfg, msgs).log);
    A.VerifiesIffMessagesInOrder(cfg, msgs);
  }
}

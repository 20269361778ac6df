/** The canonical byte encoding whose SHA-256 sum is an event's this_hash. */
module Canonical {
  import opened ByteStrings
  import opened Events

  /** A 4-byte big-endian length, then the bytes. The length is cut to 32 bits. */
  function Framed(s: Bytes): Bytes { BigEndian(|s|, 4) + s }

  function FramedAll(ss: seq<Bytes>): Bytes
  {
    if ss == [] then [] else Framed(ss[0]) + FramedAll(ss[1..])
  }

  function TailFields(e: Sealed): seq<Bytes>
  {
    [e.service, e.actor, e.action, e.targetType, e.targetID, e.payloadHash, e.prevHash]
  }

  function Encode(e: Sealed): Bytes
  {
    Framed(e.id) + (BigEndian(e.ts, 8) + FramedAll(TailFields(e)))
  }

  predicate Short(s: Bytes) { |s| < 0x1_0000_0000 }

  /** Every hashed field fits its 32-bit length prefix. */
  predicate ShortFields(e: Sealed)
  {
    Short(e.id) && forall s :: s in TailFields(e) ==> Short(s)
  }

  predicate Int64Time(t: Time) { -0x8000_0000_0000_0000 <= t < 0x8000_0000_0000_0000 }

  /** What the encoding is designed for: 32-bit lengths, int64 nanoseconds. */
  predicate Encodable(e: Sealed) { ShortFields(e) && Int64Time(e.ts) }

  // ---- injectivity ----

  lemma FramedPrefix(a: Bytes, x: Bytes, b: Bytes, y: Bytes)
    requires Short(a) && Short(b)
    requires Framed(a) + x == Framed(b) + y
    ensures a == b && x == y
  {
    var l, r := Framed(a) + x, Framed(b) + y;
    assert l[..4] == BigEndian(|a|, 4) && r[..4] == BigEndian(|b|, 4);
    LengthPrefixInjective(|a|, |b|);
    assert l[4..4 + |a|] == a && r[4..4 + |b|] == b;
    assert l[4 + |a|..] == x && r[4 + |b|..] == y;
  }

  lemma LengthPrefixInjective(m: nat, n: nat)
    requires m < 0x1_0000_0000 && n < 0x1_0000_0000 && BigEndian(m, 4) == BigEndian(n, 4)
    ensures m == n
  {
    BigEndianSame(m, n, 4);
    assert Pow256(4) == 0x1_0000_0000 by { assert Pow256(2) == 65536; }
    SmallMultiple(m - n, 0x1_0000_0000);
  }

  lemma {:induction false} FramedAllInjective(a: seq<Bytes>, b: seq<Bytes>)
    requires |a| == |b|
    requires forall s :: s in a || s in b ==> Short(s)
    requires FramedAll(a) == FramedAll(b)
    ensures a == b
  {
    if a != [] {
      FramedPrefix(a[0], FramedAll(a[1..]), b[0], FramedAll(b[1..]));
      FramedAllInjective(a[1..], b[1..]);
      assert a == [a[0]] + a[1..] && b == [b[0]] + b[1..];
    }
  }

  /** The exact power of the encoding. With 32-bit field lengths, two events encode
      alike if and only if the eight strings agree and the timestamps agree modulo
      2^64 nanoseconds: dates 2^64 ns apart cannot be told apart by any hash. */
  lemma EncodeSameIff(a: Sealed, b: Sealed)
    requires ShortFields(a) && ShortFields(b)
    ensures Encode(a) == Encode(b) <==>
            a.id == b.id && TailFields(a) == TailFields(b) && (a.ts - b.ts) % 0x1_0000_0000_0000_0000 == 0
  {
    Pow256Of8();
    BigEndianSame(a.ts, b.ts, 8);
    if Encode(a) == Encode(b) {
      var x, y := BigEndian(a.ts, 8) + FramedAll(TailFields(a)), BigEndian(b.ts, 8) + FramedAll(TailFields(b));
      FramedPrefix(a.id, x, b.id, y);
      assert x[..8] == BigEndian(a.ts, 8) && y[..8] == BigEndian(b.ts, 8);
      assert x[8..] == FramedAll(TailFields(a)) && y[8..] == FramedAll(TailFields(b));
      FramedAllInjective(TailFields(a), TailFields(b));
    }
  }

  lemma Pow256Of8()
    ensures Pow256(8) == 0x1_0000_0000_0000_0000
  {
  }

  /** Injective on everything the encoding is designed for. */
  lemma EncodeInjective(a: Sealed, b: Sealed)
    requires Encodable(a) && Encodable(b)
    ensures Encode(a) == Encode(b) <==> a == b
  {
    hide Encode, TailFields;
    EncodeSameIff(a, b);
    Int64Apart(a.ts, b.ts);
    TailFieldsSame(a, b);
  }

  lemma TailFieldsSame(a: Sealed, b: Sealed)
    ensures a == b <==> a.id == b.id && a.ts == b.ts && TailFields(a) == TailFields(b)
  {
  }

  lemma Int64Apart(a: Time, b: Time)
    requires Int64Time(a) && Int64Time(b)
    ensures (a - b) % 0x1_0000_0000_0000_0000 == 0 <==> a == b
  {
  }

  // ---- reading an encoding back ----

  /** A length-prefixed string, and the bytes after it. */
  function ReadStr(b: Bytes): Option<(Bytes, Bytes)>
  {
    if |b| < 4 then None
    else
      var n := BigEndianValue(b[..4]);
      if |b| - 4 < n then None else Some((b[4..4 + n], b[4 + n..]))
  }

  function ReadStrs(b: Bytes, count: nat): (r: Option<(seq<Bytes>, Bytes)>)
    ensures r.Some? ==> |r.value.0| == count
  {
    if count == 0 then Some(([], b))
    else
      match ReadStr(b)
      case None => None
      case Some((s, rest)) =>
        match ReadStrs(rest, count - 1)
        case None => None
        case Some((ss, end)) => Some(([s] + ss, end))
  }

  /** An eight-byte two's-complement number. */
  function ReadInt64(b: Bytes): int
  {
    var n := BigEndianValue(b);
    if n < 0x8000_0000_0000_0000 then n else n - 0x1_0000_0000_0000_0000
  }

  /** A reader of the documented layout: id, ts, source_service, actor_id, action,
      target_type, target_id, payload_hash, prev_hash. */
  function Decode(b: Bytes): Option<Sealed>
  {
    match ReadStr(b)
    case None => None
    case Some((id, tail)) =>
      if |tail| < 8 then None
      else
        match ReadStrs(tail[8..], 7)
        case None => None
        case Some((ss, end)) =>
          if end != [] then None
          else Some(Sealed(id, ReadInt64(tail[..8]), ss[0], ss[1], ss[2], ss[3], ss[4], ss[5], ss[6]))
  }

  lemma ReadFramed(s: Bytes, rest: Bytes)
    requires Short(s)
    ensures ReadStr(Framed(s) + rest) == Some((s, rest))
  {
    hide BigEndian, BigEndianValue;
    var b := Framed(s) + rest;
    Pow256Of4();
    BigEndianReadsBack(|s|, 4);
    assert b[..4] == BigEndian(|s|, 4);
    assert b[4..4 + |s|] == s && b[4 + |s|..] == rest;
  }

  lemma Pow256Of4()
    ensures Pow256(4) == 0x1_0000_0000
  {
    assert Pow256(2) == 65536;
  }

  lemma {:induction false} ReadFramedAll(ss: seq<Bytes>)
    requires forall s :: s in ss ==> Short(s)
    ensures ReadStrs(FramedAll(ss), |ss|) == Some((ss, []))
  {
    if ss != [] {
      hide Framed, ReadStr;
      ReadFramed(ss[0], FramedAll(ss[1..]));
      ReadFramedAll(ss[1..]);
      assert ss == [ss[0]] + ss[1..];
    }
  }

  lemma ReadTime(ts: Time)
    requires Int64Time(ts)
    ensures ReadInt64(BigEndian(ts, 8)) == ts
  {
    hide BigEndian, BigEndianValue, Pow256;
    Pow256Of8();
    var n := if ts >= 0 then ts else ts + 0x1_0000_0000_0000_0000;
    BigEndianSame(ts, n, 8);
    BigEndianReadsBack(n, 8);
  }

  /** The documented layout reads every encodable event back, field by field. */
  lemma DecodeEncode(e: Sealed)
    requires Encodable(e)
    ensures Decode(Encode(e)) == Some(e)
  {
    hide Framed, FramedAll, BigEndian, ReadStr, ReadStrs, ReadInt64;
    var tail := BigEndian(e.ts, 8) + FramedAll(TailFields(e));
    ReadFramed(e.id, tail);
    assert tail[..8] == BigEndian(e.ts, 8) && tail[8..] == FramedAll(TailFields(e));
    ReadTime(e.ts);
    ReadFramedAll(TailFields(e));
  }

  /** this_hash: the SHA-256 sum of the canonical encoding. */
  function CanonicalSum(sha: Sha256): EventHash
  {
    (e: Sealed) => sha(Encode(e))
  }

  /** No two of these events with different encodings hash alike. */
  ghost predicate CollisionFree(sha: Sha256, es: seq<Event>)
  {
    forall a, b {:trigger Encode(a.sealed), Encode(b.sealed)} :: a in es && b in es ==>
      sha(Encode(a.sealed)) == sha(Encode(b.sealed)) ==> Encode(a.sealed) == Encode(b.sealed)
  }

  /** Among encodable events whose encodings do not collide, the sum stands for
      exactly the nine hashed fields: the hypothesis of every chain theorem. */
  lemma CanonicalSumFaithful(sha: Sha256, es: seq<Event>)
    requires CollisionFree(sha, es)
    requires forall a :: a in es ==> Encodable(a.sealed)
    ensures Faithful(CanonicalSum(sha), es)
  {
    forall a, b | a in es && b in es && CanonicalSum(sha)(a.sealed) == CanonicalSum(sha)(b.sealed)
      ensures a.sealed == b.sealed
    {
      EncodeInjective(a.sealed, b.sealed);
      assert Encode(a.sealed) == Encode(b.sealed);
    }
  }

  // ---- the step-by-step hasher ----

  /** A running hash: the bytes written so far, summed on request. */
  class Hasher {
    var written: Bytes

    constructor ()
      ensures written == []
    {
      written := [];
    }

    method Write(p: Bytes)
      modifies this
      ensures written == old(written) + p
    {
      written := written + p;
    }

    method WriteStr(s: Bytes)
      modifies this
      ensures written == old(written) + Framed(s)
    {
      Write(BigEndian(|s|, 4));
      Write(s);
    }

    method WriteTime(ts: Time)
      modifies this
      ensures written == old(written) + BigEndian(ts, 8)
    {
      Write(BigEndian(ts, 8));
    }
  }

  /** Appending the seven trailing fields one by one builds their framed list. */
  lemma AppendedFields(start: Bytes, a: Bytes, b: Bytes, c: Bytes, d: Bytes, f: Bytes, g: Bytes, h: Bytes)
    ensures start + FramedAll([a, b, c, d, f, g, h])
            == start + Framed(a) + Framed(b) + Framed(c) + Framed(d) + Framed(f) + Framed(g) + Framed(h)
  {
    AppendedField(start, a, [b, c, d, f, g, h]);
    AppendedField(start + Framed(a), b, [c, d, f, g, h]);
    AppendedField(start + Framed(a) + Framed(b), c, [d, f, g, h]);
    AppendedField(start + Framed(a) + Framed(b) + Framed(c), d, [f, g, h]);
    AppendedField(start + Framed(a) + Framed(b) + Framed(c) + Framed(d), f, [g, h]);
    AppendedField(start + Framed(a) + Framed(b) + Framed(c) + Framed(d) + Framed(f), g, [h]);
    AppendedField(start + Framed(a) + Framed(b) + Framed(c) + Framed(d) + Framed(f) + Framed(g), h, []);
  }

  lemma AppendedField(start: Bytes, s: Bytes, rest: seq<Bytes>)
    ensures start + FramedAll([s] + rest) == start + Framed(s) + FramedAll(rest)
  {
  }

  /** Writing the nine fields in order into a fresh hasher hashes exactly Encode(e). */
  method CanonicalHash(sha: Sha256, e: Sealed) returns (sum: Digest)
    ensures sum == CanonicalSum(sha)(e)
  {
    var h := new Hasher();
    h.WriteStr(e.id);
    h.WriteTime(e.ts);
    ghost var start := h.written;
    h.WriteStr(e.service);
    h.WriteStr(e.actor);
    h.WriteStr(e.action);
    h.WriteStr(e.targetType);
    h.WriteStr(e.targetID);
    h.WriteStr(e.payloadHash);
    h.WriteStr(e.prevHash);
    AppendedFields(start, e.service, e.actor, e.action, e.targetType, e.targetID, e.payloadHash, e.prevHash);
    EncodeFrom(e, start);
    sum := sha(h.written);
  }

  lemma EncodeFrom(e: Sealed, start: Bytes)
    requires start == [] + Framed(e.id) + BigEndian(e.ts, 8)
    ensures Encode(e) == start + FramedAll(TailFields(e))
  {
    hide FramedAll, BigEndian, Framed, TailFields;
    var a, b, c := Framed(e.id), BigEndian(e.ts, 8), FramedAll(TailFields(e));
    assert a + (b + c) == a + b + c;
    assert [] + a == a;
  }
}

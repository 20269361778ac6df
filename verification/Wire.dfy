/** The producer's envelope: required fields and the "sha256:<hex>" hash strings. */
module Wire {
  import opened ByteStrings
  import opened Events

  /** A decoded envelope. An absent payload is the empty byte string. */
  datatype Envelope = Envelope(
    id: Bytes, ts: Time, service: Bytes, actor: Bytes, action: Bytes,
    targetType: Bytes, targetID: Bytes, payloadHash: Bytes, payload: Bytes)

  datatype Field = Id | Ts | SourceService | ActorId | Action | TargetType | TargetId | PayloadHash

  /** The first required field that is missing, in the order they are checked. */
  function FirstMissing(ev: Envelope): (r: Option<Field>)
    ensures r == None ==> ev.id != [] && ev.ts != ZERO_TIME && ev.payloadHash != []
  {
    if ev.id == [] then Some(Id)
    else if ev.ts == ZERO_TIME then Some(Ts)
    else if ev.service == [] then Some(SourceService)
    else if ev.actor == [] then Some(ActorId)
    else if ev.action == [] then Some(Action)
    else if ev.targetType == [] then Some(TargetType)
    else if ev.targetID == [] then Some(TargetId)
    else if ev.payloadHash == [] then Some(PayloadHash)
    else None
  }

  /** The value of each required field, in the order they are checked; the time counts
      as empty if it is the zero time. */
  predicate Missing(ev: Envelope, f: Field)
  {
    match f
    case Id => ev.id == []
    case Ts => ev.ts == ZERO_TIME
    case SourceService => ev.service == []
    case ActorId => ev.actor == []
    case Action => ev.action == []
    case TargetType => ev.targetType == []
    case TargetId => ev.targetID == []
    case PayloadHash => ev.payloadHash == []
  }

  function Rank(f: Field): nat
  {
    match f
    case Id => 0
    case Ts => 1
    case SourceService => 2
    case ActorId => 3
    case Action => 4
    case TargetType => 5
    case TargetId => 6
    case PayloadHash => 7
  }

  /** Validation reports a field exactly when it is missing and none before it is, and an
      envelope is complete exactly when all eight are there. */
  lemma FirstMissingIff(ev: Envelope, f: Field)
    ensures FirstMissing(ev) == Some(f) <==> Missing(ev, f) && forall g :: Rank(g) < Rank(f) ==> !Missing(ev, g)
    ensures FirstMissing(ev) == None <==>
            ev.id != [] && ev.ts != ZERO_TIME && ev.service != [] && ev.actor != [] && ev.action != []
            && ev.targetType != [] && ev.targetID != [] && ev.payloadHash != []
  {
    if Missing(ev, f) && forall g :: Rank(g) < Rank(f) ==> !Missing(ev, g) {
      assert Rank(Id) < Rank(f) ==> !Missing(ev, Id);
      assert Rank(Ts) < Rank(f) ==> !Missing(ev, Ts);
      assert Rank(SourceService) < Rank(f) ==> !Missing(ev, SourceService);
      assert Rank(ActorId) < Rank(f) ==> !Missing(ev, ActorId);
      assert Rank(Field.Action) < Rank(f) ==> !Missing(ev, Field.Action);
      assert Rank(TargetType) < Rank(f) ==> !Missing(ev, TargetType);
      assert Rank(TargetId) < Rank(f) ==> !Missing(ev, TargetId);
    }
  }

  // ---- hexadecimal ----

  function HexDigit(n: nat): Byte
    requires n < 16
  {
    if n < 10 then 48 + n else 87 + n
  }

  /** The value of a hex digit of either case. */
  function DigitValue(c: Byte): Option<nat>
  {
    if 48 <= c <= 57 then Some(c - 48)
    else if 97 <= c <= 102 then Some(c - 87)
    else if 65 <= c <= 70 then Some(c - 55)
    else None
  }

  predicate IsHex(s: Bytes)
  {
    forall i :: 0 <= i < |s| ==> DigitValue(s[i]).Some?
  }

  predicate UpperHex(c: Byte) { 65 <= c <= 70 }

  function EncodeHex(b: Bytes): (s: Bytes)
    ensures |s| == 2 * |b|
  {
    if b == [] then [] else [HexDigit(b[0] / 16), HexDigit(b[0] % 16)] + EncodeHex(b[1..])
  }

  function DecodeHex(s: Bytes): (r: Option<Bytes>)
    ensures r.Some? ==> |s| == 2 * |r.value|
  {
    if s == [] then Some([])
    else if |s| == 1 then None
    else
      match (DigitValue(s[0]), DigitValue(s[1]), DecodeHex(s[2..]))
      case (Some(hi), Some(lo), Some(rest)) => Some([16 * hi + lo] + rest)
      case _ => None
  }

  lemma {:induction false} DecodeEncodeHex(b: Bytes)
    ensures DecodeHex(EncodeHex(b)) == Some(b)
  {
    if b != [] {
      DecodeEncodeHex(b[1..]);
      var s := EncodeHex(b);
      assert s[2..] == EncodeHex(b[1..]) && s[0] == HexDigit(b[0] / 16) && s[1] == HexDigit(b[0] % 16);
      assert b == [b[0]] + b[1..];
    }
  }

  /** A string that decodes is the canonical one exactly when it has no upper-case digit. */
  lemma {:induction false} CanonicalHexIff(s: Bytes, b: Bytes)
    requires DecodeHex(s) == Some(b)
    ensures s == EncodeHex(b) <==> forall i :: 0 <= i < |s| ==> !UpperHex(s[i])
  {
    if s != [] {
      CanonicalHexIff(s[2..], b[1..]);
      assert s == [s[0], s[1]] + s[2..];
      var t := EncodeHex(b);
      assert t[0] == HexDigit(b[0] / 16) && t[1] == HexDigit(b[0] % 16) && t[2..] == EncodeHex(b[1..]);
      assert b[0] / 16 == DigitValue(s[0]).value && b[0] % 16 == DigitValue(s[1]).value;
      assert s[0] == t[0] <==> !UpperHex(s[0]);
      assert s[1] == t[1] <==> !UpperHex(s[1]);
      if s == t {
        forall i | 0 <= i < |s|
          ensures !UpperHex(s[i])
        {
          assert i >= 2 ==> s[i] == s[2..][i - 2];
        }
      }
    }
  }

  function UpperByte(c: Byte): Byte { if 97 <= c <= 122 then c - 32 else c }

  /** The same digits with the letters in upper case. */
  function UpperCase(s: Bytes): (u: Bytes)
    ensures |u| == |s|
    ensures forall i :: 0 <= i < |s| ==> u[i] == UpperByte(s[i])
  {
    if s == [] then [] else [UpperByte(s[0])] + UpperCase(s[1..])
  }

  predicate HasLetterDigit(b: Bytes)
  {
    exists i :: 0 <= i < |b| && (b[i] / 16 >= 10 || b[i] % 16 >= 10)
  }

  lemma UpperCaseFirst(b: Bytes)
    requires b != []
    ensures var s, u := EncodeHex(b), UpperCase(EncodeHex(b));
            && s[2..] == EncodeHex(b[1..]) && s[0] == HexDigit(b[0] / 16) && s[1] == HexDigit(b[0] % 16)
            && u[2..] == UpperCase(EncodeHex(b[1..]))
            && DigitValue(u[0]) == Some(b[0] / 16) && DigitValue(u[1]) == Some(b[0] % 16)
            && (u[0] == s[0] <==> b[0] / 16 < 10) && (u[1] == s[1] <==> b[0] % 16 < 10)
  {
    hide UpperCase, UpperByte, HexDigit, DigitValue, EncodeHex;
    EncodeHexFirst(b);
    UpperCaseTail(EncodeHex(b));
    UpperDigit(b[0] / 16);
    UpperDigit(b[0] % 16);
  }

  lemma EncodeHexFirst(b: Bytes)
    requires b != []
    ensures var s := EncodeHex(b);
            s[2..] == EncodeHex(b[1..]) && s[0] == HexDigit(b[0] / 16) && s[1] == HexDigit(b[0] % 16)
  {
  }

  lemma UpperCaseTail(s: Bytes)
    requires |s| >= 2
    ensures UpperCase(s)[2..] == UpperCase(s[2..])
  {
    hide UpperByte;
    assert s[1..][1..] == s[2..];
  }

  lemma UpperDigit(n: nat)
    requires n < 16
    ensures var c := HexDigit(n); DigitValue(UpperByte(c)) == Some(n) && (UpperByte(c) == c <==> n < 10)
  {
  }

  lemma SameInParts(u: Bytes, s: Bytes)
    requires |u| == |s| >= 2
    ensures u == s <==> u[0] == s[0] && u[1] == s[1] && u[2..] == s[2..]
  {
    assert u == [u[0], u[1]] + u[2..] && s == [s[0], s[1]] + s[2..];
  }

  /** Upper case spells the same bytes. */
  lemma {:induction false} DecodeUpperCase(b: Bytes)
    ensures DecodeHex(UpperCase(EncodeHex(b))) == Some(b)
  {
    if b != [] {
      hide EncodeHex, UpperCase, UpperByte, DigitValue;
      DecodeUpperCase(b[1..]);
      UpperCaseFirst(b);
      var u := UpperCase(EncodeHex(b));
      assert u[2..] == UpperCase(EncodeHex(b[1..]));
      assert b == [b[0]] + b[1..];
    }
  }

  lemma {:induction false} UpperCaseSameIff(b: Bytes)
    ensures UpperCase(EncodeHex(b)) == EncodeHex(b) <==> !HasLetterDigit(b)
  {
    if b != [] {
      hide EncodeHex, UpperCase, UpperByte, HasLetterDigit;
      UpperCaseSameIff(b[1..]);
      UpperCaseFirst(b);
      LetterDigitFirst(b);
      SameInParts(UpperCase(EncodeHex(b)), EncodeHex(b));
    } else {
      assert UpperCase(EncodeHex(b)) == EncodeHex(b);
    }
  }

  lemma LetterDigitFirst(b: Bytes)
    requires b != []
    ensures HasLetterDigit(b) <==> b[0] / 16 >= 10 || b[0] % 16 >= 10 || HasLetterDigit(b[1..])
  {
    if HasLetterDigit(b[1..]) {
      var i :| 0 <= i < |b| - 1 && (b[1..][i] / 16 >= 10 || b[1..][i] % 16 >= 10);
      assert b[i + 1] == b[1..][i];
    }
    if HasLetterDigit(b) && b[0] / 16 < 10 && b[0] % 16 < 10 {
      var i :| 0 <= i < |b| && (b[i] / 16 >= 10 || b[i] % 16 >= 10);
      assert b[1..][i - 1] == b[i];
    }
  }

  // ---- "sha256:<hex>" ----

  /** The bytes of "sha256:". */
  const HASH_PREFIX: Bytes := [115, 104, 97, 50, 53, 54, 58]

  function TrimHashPrefix(h: Bytes): Bytes
  {
    if HASH_PREFIX <= h then h[7..] else h
  }

  function NormalizeHash(h: Bytes): Bytes
  {
    if h == [] || HASH_PREFIX <= h then h
    else if |h| == 64 && IsHex(h) then HASH_PREFIX + h
    else h
  }

  function EncodeHash(b: Bytes): Bytes
  {
    if |b| != 32 then [] else HASH_PREFIX + EncodeHex(b)
  }

  function DecodeHash(h: Bytes): (r: Option<Bytes>)
    ensures r.Some? ==> |r.value| == 32
  {
    match DecodeHex(TrimHashPrefix(h))
    case Some(b) => if |b| == 32 then Some(b) else None
    case None => None
  }

  function HashPayload(sha: Sha256, payload: Bytes): Bytes
  {
    HASH_PREFIX + EncodeHex(sha(payload))
  }

  /** Encoding and decoding a 32-byte hash is a round trip. */
  lemma DecodeEncodeHash(b: Bytes)
    requires |b| == 32
    ensures DecodeHash(EncodeHash(b)) == Some(b)
  {
    DecodeEncodeHex(b);
    assert EncodeHash(b)[7..] == EncodeHex(b);
  }

  lemma {:induction false} DecodableIsHex(s: Bytes)
    ensures DecodeHex(s).Some? <==> |s| % 2 == 0 && IsHex(s)
    decreases |s|
  {
    if |s| >= 2 {
      DecodableIsHex(s[2..]);
      if IsHex(s[2..]) && DigitValue(s[0]).Some? && DigitValue(s[1]).Some? {
        assert forall i :: 2 <= i < |s| ==> s[i] == s[2..][i - 2];
      }
    }
  }

  /** A producer's hash string that denotes the payload's own digest passes the
      payload check exactly when its hex part is in lower case: the check compares
      strings, so an upper-case spelling of the right digest is turned away. */
  lemma RightDigestAcceptedIff(sha: Sha256, h: Bytes, payload: Bytes)
    requires DecodeHash(h) == Some(sha(payload))
    ensures NormalizeHash(h) == HashPayload(sha, payload) <==>
            forall i :: 0 <= i < |TrimHashPrefix(h)| ==> !UpperHex(TrimHashPrefix(h)[i])
  {
    var s, d := TrimHashPrefix(h), sha(payload);
    CanonicalHexIff(s, d);
    DecodableIsHex(s);
    if HASH_PREFIX <= h {
      assert h == HASH_PREFIX + s;
    } else {
      assert h != [];
      assert NormalizeHash(h) == HASH_PREFIX + s;
    }
    assert NormalizeHash(h)[7..] == s && HashPayload(sha, payload)[7..] == EncodeHex(d);
  }

  /** A wrong digest never passes, however it is spelled. */
  lemma WrongDigestRefused(sha: Sha256, h: Bytes, payload: Bytes)
    requires NormalizeHash(h) == HashPayload(sha, payload)
    ensures DecodeHash(h) == Some(sha(payload))
  {
    var p := HashPayload(sha, payload);
    assert HASH_PREFIX <= p;
    assert p[7..] == EncodeHex(sha(payload));
    assert TrimHashPrefix(h) == EncodeHex(sha(payload)) by {
      if !(HASH_PREFIX <= h) {
        assert (HASH_PREFIX + h)[7..] == h;
      }
    }
    DecodeEncodeHex(sha(payload));
  }

  /** The letters and digits of hex, and the prefix of hash strings, as written. */
  lemma DigitsSpelled(n: nat)
    requires n < 16
    ensures HexDigit(n) == "0123456789abcdef"[n] as int
    ensures DigitValue("0123456789abcdef"[n] as int) == Some(n) == DigitValue("0123456789ABCDEF"[n] as int)
    ensures Spells(HASH_PREFIX, "sha256:")
  {
  }

  /** No other byte is a hex digit. */
  lemma OnlyDigits(c: Byte)
    ensures DigitValue(c).Some? ==> exists n :: 0 <= n < 16 && ("0123456789abcdef"[n] as int == c || "0123456789ABCDEF"[n] as int == c)
  {
    if DigitValue(c).Some? {
      var n := DigitValue(c).value;
      assert "0123456789abcdef"[n] as int == c || "0123456789ABCDEF"[n] as int == c;
    }
  }

  /** Every byte is written as two digits, the high one first. */
  lemma {:induction false} HexDigitsOf(b: Bytes, i: nat)
    requires i < |b|
    ensures EncodeHex(b)[2 * i] == HexDigit(b[i] / 16) && EncodeHex(b)[2 * i + 1] == HexDigit(b[i] % 16)
  {
    EncodeHexFirst(b);
    if i > 0 {
      HexDigitsOf(b[1..], i - 1);
      assert EncodeHex(b)[2..][2 * (i - 1)] == EncodeHex(b)[2 * i] && EncodeHex(b)[2..][2 * (i - 1) + 1] == EncodeHex(b)[2 * i + 1];
    }
  }

  /** Which hash strings decode: 64 hex digits of either case, with or without the prefix. */
  lemma DecodableIff(h: Bytes)
    ensures DecodeHash(h).Some? <==> |TrimHashPrefix(h)| == 64 && IsHex(TrimHashPrefix(h))
    ensures HASH_PREFIX <= h ==> h == HASH_PREFIX + TrimHashPrefix(h)
    ensures !(HASH_PREFIX <= h) ==> h == TrimHashPrefix(h)
  {
    hide DecodeHex, IsHex;
    DecodableIsHex(TrimHashPrefix(h));
  }
}

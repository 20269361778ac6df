/** The redaction policy applied to a payload's top-level fields. */
module Redaction {
  import opened ByteStrings
  import opened Wire

  /** One rule: for a service and action ("*" is a wildcard), a transform by field. */
  datatype Rule<N> = Rule(service: N, action: N, fields: map<N, N>)

  const STAR: Bytes := [42]
  const NONE: Bytes := [110, 111, 110, 101]
  const HASH: Bytes := [104, 97, 115, 104]
  const MASK: Bytes := [109, 97, 115, 107]
  const DROP: Bytes := [100, 114, 111, 112]

  /** A decoded JSON value: a string, or anything else by its JSON text. */
  datatype Value = Text(s: Bytes) | Other(json: Bytes)

  type Object = map<Bytes, Value>

  /** The JSON and case-folding library calls the code relies on. */
  datatype Codec = Codec(
    unmarshal: Bytes -> Option<Object>, marshalObject: Object -> Bytes,
    marshal: Value -> Bytes, lower: Bytes -> Bytes)

  // ---- which rules apply ----

  predicate Applies(r: Rule<Bytes>, service: Bytes, action: Bytes)
  {
    (r.service == STAR || r.service == service) && (r.action == STAR || r.action == action)
  }

  function MatchingRules(rules: seq<Rule<Bytes>>, service: Bytes, action: Bytes): seq<Rule<Bytes>>
  {
    if rules == [] then []
    else
      var n := |rules| - 1;
      MatchingRules(rules[..n], service, action) + if Applies(rules[n], service, action) then [rules[n]] else []
  }

  /** The transform of the first rule that lists the key, if any rule does. */
  function FateOf(rules: seq<Rule<Bytes>>, key: Bytes): (t: Option<Bytes>)
    ensures t == None <==> forall i :: 0 <= i < |rules| ==> key !in rules[i].fields
  {
    if rules == [] then None
    else if key in rules[0].fields then Some(rules[0].fields[key])
    else FateOf(rules[1..], key)
  }

  /** The first listing rule decides; later ones, even stricter ones, never do. */
  lemma {:induction false} FirstListingRuleDecides(rules: seq<Rule<Bytes>>, key: Bytes, i: nat)
    requires i < |rules| && key in rules[i].fields
    requires forall j :: 0 <= j < i ==> key !in rules[j].fields
    ensures FateOf(rules, key) == Some(rules[i].fields[key])
  {
    if i > 0 {
      FirstListingRuleDecides(rules[1..], key, i - 1);
    }
  }

  // ---- what a transform does to a value ----

  function AsString(codec: Codec, v: Value): Bytes
  {
    if v.Text? then v.s else codec.marshal(v)
  }

  /** Go's string(b) of a byte b: the UTF-8 encoding of the code point b. */
  function RuneBytes(b: Byte): Bytes
  {
    if b < 128 then [b] else [192 + b / 64, 128 + b % 64]
  }

  function Stars(n: nat): (s: Bytes)
    ensures |s| == n && forall i :: 0 <= i < n ==> s[i] == 42
  {
    if n == 0 then [] else Stars(n - 1) + [42]
  }

  function MaskString(s: Bytes): Bytes
  {
    if |s| <= 2 then STAR else RuneBytes(s[0]) + Stars(|s| - 2) + RuneBytes(s[|s| - 1])
  }

  /** A mask shows the length and the two ends of a string and nothing else. */
  lemma MaskHidesInterior(s: Bytes, t: Bytes)
    requires |s| > 2 && |t| > 2
    ensures MaskString(s) == MaskString(t) <==> |s| == |t| && s[0] == t[0] && s[|s| - 1] == t[|t| - 1]
  {
    hide RuneBytes, Stars;
    var x, y := Stars(|s| - 2) + RuneBytes(s[|s| - 1]), Stars(|t| - 2) + RuneBytes(t[|t| - 1]);
    assert MaskString(s) == RuneBytes(s[0]) + x && MaskString(t) == RuneBytes(t[0]) + y;
    if MaskString(s) == MaskString(t) {
      MaskHeadDetermined(s[0], t[0], x, y);
      MaskTailDetermined(s[|s| - 1], t[|t| - 1], |s| - 2, |t| - 2, x, y);
    }
  }

  lemma MaskHeadDetermined(p: Byte, q: Byte, x: Bytes, y: Bytes)
    requires RuneBytes(p) + x == RuneBytes(q) + y
    ensures p == q && x == y
  {
    var a, b := RuneBytes(p) + x, RuneBytes(q) + y;
    var n := |RuneBytes(p)|;
    assert a[0] == RuneBytes(p)[0] && b[0] == RuneBytes(q)[0];
    assert p >= 128 && q >= 128 ==> a[1] == RuneBytes(p)[1] && b[1] == RuneBytes(q)[1];
    assert x == a[n..] && y == b[n..];
  }

  lemma MaskTailDetermined(x: Byte, y: Byte, m: nat, n: nat, a: Bytes, b: Bytes)
    requires m > 0 && n > 0 && a == b && a == Stars(m) + RuneBytes(x) && b == Stars(n) + RuneBytes(y)
    ensures m == n && x == y
  {
    var i, j := |a| - 1, |a| - 2;
    assert a[i] == RuneBytes(x)[|RuneBytes(x)| - 1] && b[i] == RuneBytes(y)[|RuneBytes(y)| - 1];
    assert a[j] == (if x < 128 then 42 else RuneBytes(x)[0]) && b[j] == (if y < 128 then 42 else RuneBytes(y)[0]);
  }

  /** The new value and whether it counts as changed; drop is handled by the caller. */
  function ApplyTransform(sha: Sha256, codec: Codec, t: Bytes, v: Value): (Value, bool)
  {
    if t == HASH then (Text(HashPayload(sha, codec.marshal(v))), true)
    else if t == MASK then
      var s := AsString(codec, v);
      if s == [] then (v, false) else (Text(MaskString(s)), true)
    else (v, false)
  }

  // ---- the pointwise meaning of Apply ----

  predicate Dropped(codec: Codec, rules: seq<Rule<Bytes>>, k: Bytes)
  {
    FateOf(rules, codec.lower(k)) == Some(DROP)
  }

  function NewValue(sha: Sha256, codec: Codec, rules: seq<Rule<Bytes>>, k: Bytes, v: Value): (Value, bool)
  {
    match FateOf(rules, codec.lower(k))
    case None => (v, false)
    case Some(t) => ApplyTransform(sha, codec, t, v)
  }

  function Redacted(sha: Sha256, codec: Codec, rules: seq<Rule<Bytes>>, obj: Object): Object
  {
    map k | k in obj && !Dropped(codec, rules, k) :: NewValue(sha, codec, rules, k, obj[k]).0
  }

  predicate Touches(sha: Sha256, codec: Codec, rules: seq<Rule<Bytes>>, obj: Object, k: Bytes)
    requires k in obj
  {
    Dropped(codec, rules, k) || NewValue(sha, codec, rules, k, obj[k]).1
  }

  ghost predicate Changes(sha: Sha256, codec: Codec, rules: seq<Rule<Bytes>>, obj: Object)
  {
    exists k :: k in obj && Touches(sha, codec, rules, obj, k)
  }

  lemma UnchangedIsIdentity(sha: Sha256, codec: Codec, rules: seq<Rule<Bytes>>, obj: Object)
    requires !Changes(sha, codec, rules, obj)
    ensures Redacted(sha, codec, rules, obj) == obj
  {
  }

  datatype ApplyResult = Applied(body: Bytes, changed: bool) | BadPayload

  /** What redaction returns: the body itself when nothing applies or nothing
      changes, an error when a body that some rule applies to is not an object, and
      otherwise the encoding of the pointwise redacted object. */
  ghost function ApplyPolicy(sha: Sha256, codec: Codec, policy: seq<Rule<Bytes>>, service: Bytes, action: Bytes, body: Bytes): ApplyResult
  {
    var rules := MatchingRules(policy, service, action);
    if body == [] || rules == [] then Applied(body, false)
    else
      match codec.unmarshal(body)
      case None => BadPayload
      case Some(obj) =>
        if Changes(sha, codec, rules, obj)
        then Applied(codec.marshalObject(Redacted(sha, codec, rules, obj)), true)
        else Applied(body, false)
  }

  // ---- the code ----

  method Matches(policy: seq<Rule<Bytes>>, service: Bytes, action: Bytes) returns (out: seq<Rule<Bytes>>)
    ensures out == MatchingRules(policy, service, action)
  {
    out := [];
    for i := 0 to |policy|
      invariant out == MatchingRules(policy[..i], service, action)
    {
      var r := policy[i];
      assert policy[..i + 1][..i] == policy[..i];
      if r.service != STAR && r.service != service {
        continue;
      }
      if r.action != STAR && r.action != action {
        continue;
      }
      out := out + [r];
    }
    assert policy[..|policy|] == policy;
  }

  /** One key: look for the first rule that lists it, and rewrite or delete it. */
  method RewriteKey(sha: Sha256, codec: Codec, rules: seq<Rule<Bytes>>, obj: Object, k: Bytes) returns (out: Object, touched: bool)
    requires k in obj
    ensures out == if Dropped(codec, rules, k) then obj - {k} else obj[k := NewValue(sha, codec, rules, k, obj[k]).0]
    ensures touched <==> Touches(sha, codec, rules, obj, k)
  {
    out, touched := obj, false;
    var lower := codec.lower(k);
    for i := 0 to |rules|
      invariant out == obj && !touched && FateOf(rules, lower) == FateOf(rules[i..], lower)
    {
      assert rules[i..][1..] == rules[i + 1..];
      if lower !in rules[i].fields {
        continue;
      }
      var t := rules[i].fields[lower];
      if t == DROP {
        return obj - {k}, true;
      }
      var (v, changed) := ApplyTransform(sha, codec, t, obj[k]);
      if changed {
        return obj[k := v], true;
      }
      assert obj[k := obj[k]] == obj;
      return obj, false;
    }
    assert obj[k := obj[k]] == obj;
  }

  lemma TouchesSame(sha: Sha256, codec: Codec, rules: seq<Rule<Bytes>>, a: Object, b: Object, k: Bytes)
    requires k in a && k in b && a[k] == b[k]
    ensures Touches(sha, codec, rules, a, k) <==> Touches(sha, codec, rules, b, k)
  {
  }

  /** The keys are visited in an arbitrary order; the outcome does not depend on it. */
  method RewriteObject(sha: Sha256, codec: Codec, rules: seq<Rule<Bytes>>, obj: Object) returns (out: Object, changed: bool)
    ensures out == Redacted(sha, codec, rules, obj)
    ensures changed <==> Changes(sha, codec, rules, obj)
  {
    hide FateOf, NewValue, Touches, Dropped;
    out, changed := obj, false;
    ghost var meaning := Redacted(sha, codec, rules, obj);
    var todo := obj.Keys;
    while todo != {}
      invariant todo <= obj.Keys
      invariant forall k :: k in out <==> if k in todo then k in obj else k in meaning
      invariant forall k :: k in out ==> out[k] == if k in todo then obj[k] else meaning[k]
      invariant changed <==> exists k :: k in obj && k !in todo && Touches(sha, codec, rules, obj, k)
      decreases todo
    {
      var k :| k in todo;
      var touched;
      TouchesSame(sha, codec, rules, out, obj, k);
      out, touched := RewriteKey(sha, codec, rules, out, k);
      changed := changed || touched;
      todo := todo - {k};
    }
    assert out == meaning;
  }

  method Apply(sha: Sha256, codec: Codec, policy: seq<Rule<Bytes>>, service: Bytes, action: Bytes, body: Bytes)
    returns (r: ApplyResult)
    ensures r == ApplyPolicy(sha, codec, policy, service, action, body)
  {
    if |policy| == 0 || |body| == 0 {
      return Applied(body, false);
    }
    var rules := Matches(policy, service, action);
    if |rules| == 0 {
      return Applied(body, false);
    }
    var decoded := codec.unmarshal(body);
    if decoded == None {
      return BadPayload;
    }
    var obj, changed := RewriteObject(sha, codec, rules, decoded.value);
    if !changed {
      return Applied(body, false);
    }
    return Applied(codec.marshalObject(obj), true);
  }

  // ---- what the stored body says ----

  /** Which rules apply: those whose service and action are a star or the event's own. */
  lemma {:induction false} MatchingIff(rules: seq<Rule<Bytes>>, service: Bytes, action: Bytes, r: Rule<Bytes>)
    ensures r in MatchingRules(rules, service, action) <==>
            r in rules && (r.service != STAR ==> r.service == service) && (r.action != STAR ==> r.action == action)
  {
    if rules != [] {
      var n := |rules| - 1;
      MatchingIff(rules[..n], service, action, r);
      assert rules == rules[..n] + [rules[n]];
    }
  }

  lemma {:induction false} MatchingConcat(a: seq<Rule<Bytes>>, b: seq<Rule<Bytes>>, service: Bytes, action: Bytes)
    ensures MatchingRules(a + b, service, action) == MatchingRules(a, service, action) + MatchingRules(b, service, action)
    decreases |b|
  {
    if b == [] {
      assert a + b == a;
    } else {
      hide MatchingRules, Applies;
      var n := |b| - 1;
      MatchingConcat(a, b[..n], service, action);
      assert a + b == a + b[..n] + [b[n]] && b == b[..n] + [b[n]];
      MatchingNext(a + b[..n], b[n], service, action);
      MatchingNext(b[..n], b[n], service, action);
    }
  }

  lemma MatchingNext(rules: seq<Rule<Bytes>>, r: Rule<Bytes>, service: Bytes, action: Bytes)
    ensures MatchingRules(rules + [r], service, action)
            == if Applies(r, service, action) then MatchingRules(rules, service, action) + [r] else MatchingRules(rules, service, action)
  {
    assert (rules + [r])[..|rules|] == rules;
  }

  /** A byte as Go prints it, a one- or two-byte code point, reads back as this byte. */
  lemma RuneReadsBack(b: Byte)
    ensures var u := RuneBytes(b);
            if b < 128 then u == [b]
            else |u| == 2 && 192 <= u[0] < 224 && 128 <= u[1] < 192 && 64 * (u[0] - 192) + (u[1] - 128) == b
  {
  }

  /** A mask: a single star for up to two bytes, and otherwise the two end bytes in their
      places with as many stars between them as there are bytes. */
  lemma MaskShape(s: Bytes)
    ensures var m := MaskString(s);
            if |s| <= 2 then m == [42]
            else
              var head, last := RuneBytes(s[0]), RuneBytes(s[|s| - 1]);
              && |m| == |head| + (|s| - 2) + |last|
              && head <= m && m[|m| - |last|..] == last
              && forall i :: |head| <= i < |m| - |last| ==> m[i] == 42
  {
    hide RuneBytes, Stars;
    if |s| > 2 {
      var head, stars, last := RuneBytes(s[0]), Stars(|s| - 2), RuneBytes(s[|s| - 1]);
      assert MaskString(s) == head + stars + last;
    }
  }

  /** The text that a mask is made of. */
  function ShownText(codec: Codec, v: Value): Bytes
  {
    match v
    case Text(s) => s
    case Other(json) => codec.marshal(v)
  }

  /** A new value for a field under a transform, said without the code's branches: what
      is masked, hashed, or left, and whether that counts as a change. */
  lemma TransformMeans(sha: Sha256, codec: Codec, t: Bytes, v: Value)
    ensures var (w, changed) := ApplyTransform(sha, codec, t, v);
            && (t == HASH ==> changed && w.Text? && DecodeHash(w.s) == Some(sha(codec.marshal(v))) && NormalizeHash(w.s) == w.s)
            && (t == MASK ==> (changed <==> ShownText(codec, v) != []) && w == if changed then Text(MaskString(ShownText(codec, v))) else v)
            && (t != HASH && t != MASK ==> !changed && w == v)
  {
    hide DecodeHash, EncodeHex, MaskString;
    HashNotMask();
    if t == HASH {
      var d := sha(codec.marshal(v));
      DecodeEncodeHash(d);
      assert HashPayload(sha, codec.marshal(v)) == EncodeHash(d);
    }
  }

  lemma HashNotMask()
    ensures HASH != MASK && HASH != DROP && MASK != DROP
  {
    assert HASH[0] == 104 && MASK[0] == 109 && DROP[0] == 100;
  }

  /** What encoding and decoding an object must do for a stored body to be readable. */
  ghost predicate RoundTrips(codec: Codec)
  {
    forall obj :: codec.unmarshal(codec.marshalObject(obj)) == Some(obj)
  }

  /** The body that is stored, read back key by key. A key's fate is the transform of the
      first applicable rule that lists its folded name. Dropped keys are gone, hashed ones
      hold a hash string of the original value, masked ones a mask, and all other keys, with
      an unknown transform or none, are as they came. */
  lemma StoredFieldIs(sha: Sha256, codec: Codec, policy: seq<Rule<Bytes>>, service: Bytes, action: Bytes, body: Bytes, obj: Object, k: Bytes)
    requires RoundTrips(codec) && body != [] && codec.unmarshal(body) == Some(obj)
    ensures var r := ApplyPolicy(sha, codec, policy, service, action, body);
            var fate := FateOf(MatchingRules(policy, service, action), codec.lower(k));
            && r.Applied? && codec.unmarshal(r.body).Some?
            && var out := codec.unmarshal(r.body).value;
            && (k in out <==> k in obj && fate != Some(DROP))
            && (k in out ==>
                  var v, w := obj[k], out[k];
                  && (fate == Some(HASH) ==> w.Text? && DecodeHash(w.s) == Some(sha(codec.marshal(v))))
                  && (fate == Some(MASK) ==> w == if ShownText(codec, v) == [] then v else Text(MaskString(ShownText(codec, v))))
                  && (fate == None || fate.value !in {HASH, MASK, DROP} ==> w == v))
  {
    hide FateOf, MatchingRules, ApplyTransform, MaskString, DecodeHash;
    var rules := MatchingRules(policy, service, action);
    var fate := FateOf(rules, codec.lower(k));
    NoRulesNoFate(rules, codec.lower(k));
    HashNotMask();
    UntouchedIsIdentity(sha, codec, rules, obj);
    if k in obj && fate.Some? {
      TransformMeans(sha, codec, fate.value, obj[k]);
    }
  }

  lemma NoRulesNoFate(rules: seq<Rule<Bytes>>, name: Bytes)
    ensures rules == [] ==> FateOf(rules, name) == None
  {
  }

  lemma UntouchedIsIdentity(sha: Sha256, codec: Codec, rules: seq<Rule<Bytes>>, obj: Object)
    ensures !Changes(sha, codec, rules, obj) ==> Redacted(sha, codec, rules, obj) == obj
    ensures rules == [] ==> Redacted(sha, codec, rules, obj) == obj
  {
    hide ApplyTransform;
    if !Changes(sha, codec, rules, obj) {
      UnchangedIsIdentity(sha, codec, rules, obj);
    }
  }

  /** The body counts as redacted exactly when some key is dropped, hashed, or masked with
      a text to mask. */
  lemma RedactedMarkIff(sha: Sha256, codec: Codec, policy: seq<Rule<Bytes>>, service: Bytes, action: Bytes, body: Bytes, obj: Object)
    requires body != [] && codec.unmarshal(body) == Some(obj)
    ensures var r := ApplyPolicy(sha, codec, policy, service, action, body);
            && r.Applied? && (!r.changed ==> r.body == body)
            && (r.changed <==>
                  exists k :: k in obj &&
                    var fate := FateOf(MatchingRules(policy, service, action), codec.lower(k));
                    fate == Some(DROP) || fate == Some(HASH) || (fate == Some(MASK) && ShownText(codec, obj[k]) != []))
  {
    hide FateOf, MatchingRules, ApplyTransform;
    var rules := MatchingRules(policy, service, action);
    HashNotMask();
    forall k | k in obj
      ensures Touches(sha, codec, rules, obj, k) <==>
              var fate := FateOf(rules, codec.lower(k));
              fate == Some(DROP) || fate == Some(HASH) || (fate == Some(MASK) && ShownText(codec, obj[k]) != [])
      ensures rules == [] ==> FateOf(rules, codec.lower(k)) == None
    {
      var fate := FateOf(rules, codec.lower(k));
      NoRulesNoFate(rules, codec.lower(k));
      if fate.Some? {
        TransformMeans(sha, codec, fate.value, obj[k]);
      }
    }
  }

  /** Redaction fails exactly on a body that is not an object and has an applicable rule. */
  lemma BadPayloadIff(sha: Sha256, codec: Codec, policy: seq<Rule<Bytes>>, service: Bytes, action: Bytes, body: Bytes)
    ensures ApplyPolicy(sha, codec, policy, service, action, body) == BadPayload <==>
            body != [] && codec.unmarshal(body) == None &&
            exists r :: r in policy && (r.service != STAR ==> r.service == service) && (r.action != STAR ==> r.action == action)
  {
    hide MatchingRules, Redacted, Changes;
    var rules := MatchingRules(policy, service, action);
    forall r
      ensures r in rules <==> r in policy && (r.service != STAR ==> r.service == service) && (r.action != STAR ==> r.action == action)
    {
      MatchingIff(policy, service, action, r);
    }
    assert rules != [] ==> rules[0] in rules;
  }

  /** Equal but for the inside of one string, with the same length and ends. */
  ghost predicate DifferInside(a: Object, b: Object, k: Bytes)
  {
    && k in a && k in b && a[k].Text? && b[k].Text? && a - {k} == b - {k}
    && |a[k].s| == |b[k].s| > 2 && a[k].s[0] == b[k].s[0] && a[k].s[|a[k].s| - 1] == b[k].s[|b[k].s| - 1]
  }

  /** Redaction hides what it masks: bodies that differ only inside a masked string are
      stored as the same bytes. */
  lemma MaskedInsideInvisible(sha: Sha256, codec: Codec, policy: seq<Rule<Bytes>>, service: Bytes, action: Bytes,
                              x: Bytes, y: Bytes, a: Object, b: Object, k: Bytes)
    requires x != [] && y != [] && codec.unmarshal(x) == Some(a) && codec.unmarshal(y) == Some(b)
    requires DifferInside(a, b, k) && FateOf(MatchingRules(policy, service, action), codec.lower(k)) == Some(MASK)
    ensures ApplyPolicy(sha, codec, policy, service, action, x) == ApplyPolicy(sha, codec, policy, service, action, y)
  {
    hide FateOf, MatchingRules, MaskString;
    var rules := MatchingRules(policy, service, action);
    NoRulesNoFate(rules, codec.lower(k));
    HashNotMask();
    MaskHidesInterior(a[k].s, b[k].s);
    var p, q := Redacted(sha, codec, rules, a), Redacted(sha, codec, rules, b);
    forall j
      ensures j in p <==> j in q
      ensures j in p ==> p[j] == q[j]
    {
      if j != k {
        assert j in a <==> j in a - {k};
        assert j in b <==> j in b - {k};
        assert j in a ==> a[j] == (a - {k})[j] && b[j] == (b - {k})[j];
      }
    }
    assert p == q;
    assert Touches(sha, codec, rules, a, k) && Touches(sha, codec, rules, b, k);
  }

  /** The words of the policy language and the mask's star, as written in documents. */
  lemma WordsSpelled()
    ensures Spells(STAR, "*") && Spells(NONE, "none") && Spells(HASH, "hash") && Spells(MASK, "mask") && Spells(DROP, "drop")
  {
  }

  // ---- case folding ----

  /** Folding a name twice is folding it once. */
  ghost predicate Folds(codec: Codec)
  {
    forall k :: codec.lower(codec.lower(k)) == codec.lower(k)
  }

  /** The rule without the field names that are not in folded form. */
  function FoldedNames(codec: Codec, r: Rule<Bytes>): Rule<Bytes>
  {
    r.(fields := map f | f in r.fields && codec.lower(f) == f :: r.fields[f])
  }

  function FoldedRules(codec: Codec, rules: seq<Rule<Bytes>>): (out: seq<Rule<Bytes>>)
    ensures |out| == |rules| && forall i :: 0 <= i < |rules| ==> out[i] == FoldedNames(codec, rules[i])
  {
    if rules == [] then [] else [FoldedNames(codec, rules[0])] + FoldedRules(codec, rules[1..])
  }

  lemma {:induction false} FateOfFolded(codec: Codec, rules: seq<Rule<Bytes>>, name: Bytes)
    requires codec.lower(name) == name
    ensures FateOf(FoldedRules(codec, rules), name) == FateOf(rules, name)
  {
    if rules != [] {
      FateOfFolded(codec, rules[1..], name);
      assert FoldedRules(codec, rules)[1..] == FoldedRules(codec, rules[1..]);
    }
  }

  lemma FoldedNext(codec: Codec, rules: seq<Rule<Bytes>>, r: Rule<Bytes>)
    ensures FoldedRules(codec, rules + [r]) == FoldedRules(codec, rules) + [FoldedNames(codec, r)]
  {
    hide FoldedRules, FoldedNames;
  }

  lemma FoldingKeepsScope(codec: Codec, r: Rule<Bytes>, service: Bytes, action: Bytes)
    ensures Applies(FoldedNames(codec, r), service, action) <==> Applies(r, service, action)
  {
  }

  lemma {:induction false} MatchingFolded(codec: Codec, rules: seq<Rule<Bytes>>, service: Bytes, action: Bytes)
    ensures MatchingRules(FoldedRules(codec, rules), service, action) == FoldedRules(codec, MatchingRules(rules, service, action))
  {
    if rules != [] {
      hide MatchingRules, FoldedRules, FoldedNames, Applies;
      var n := |rules| - 1;
      var front, r := rules[..n], rules[n];
      assert rules == front + [r];
      MatchingFolded(codec, front, service, action);
      FoldedNext(codec, front, r);
      FoldedNext(codec, MatchingRules(front, service, action), r);
      FoldingKeepsScope(codec, r, service, action);
      MatchingNext(front, r, service, action);
      MatchingNext(FoldedRules(codec, front), FoldedNames(codec, r), service, action);
    }
  }

  lemma RedactedFolded(sha: Sha256, codec: Codec, rules: seq<Rule<Bytes>>, obj: Object)
    requires Folds(codec)
    ensures Redacted(sha, codec, FoldedRules(codec, rules), obj) == Redacted(sha, codec, rules, obj)
    ensures Changes(sha, codec, FoldedRules(codec, rules), obj) <==> Changes(sha, codec, rules, obj)
  {
    hide FateOf, ApplyTransform;
    var folded := FoldedRules(codec, rules);
    forall k | k in obj
      ensures Dropped(codec, folded, k) <==> Dropped(codec, rules, k)
      ensures NewValue(sha, codec, folded, k, obj[k]) == NewValue(sha, codec, rules, k, obj[k])
      ensures Touches(sha, codec, folded, obj, k) <==> Touches(sha, codec, rules, obj, k)
    {
      FateOfFolded(codec, rules, codec.lower(k));
    }
  }

  /** Only the payload key is folded, never the policy's field name. So a name that is
      not in folded form matches no key at all, not even one spelled the same: every
      policy acts exactly as it does with all such names struck out. */
  lemma UnfoldedNamesIgnored(sha: Sha256, codec: Codec, policy: seq<Rule<Bytes>>, service: Bytes, action: Bytes, body: Bytes)
    requires Folds(codec)
    ensures ApplyPolicy(sha, codec, FoldedRules(codec, policy), service, action, body)
            == ApplyPolicy(sha, codec, policy, service, action, body)
  {
    hide Redacted, Changes, MatchingRules;
    MatchingFolded(codec, policy, service, action);
    if codec.unmarshal(body).Some? {
      RedactedFolded(sha, codec, MatchingRules(policy, service, action), codec.unmarshal(body).value);
    }
  }

  /** "SSN" and "ssn" */
  const UPPER_SSN: Bytes := [83, 83, 78]
  const LOWER_SSN: Bytes := [115, 115, 110]

  function DropPolicy(field: Bytes): seq<Rule<Bytes>> { [Rule(STAR, STAR, map[field := DROP])] }

  /** A policy that drops "SSN" stores a body with the key "SSN" as it came, where one
      that drops "ssn" removes the key. */
  lemma UpperCaseNameRedactsNothing(sha: Sha256, codec: Codec, service: Bytes, action: Bytes, body: Bytes, v: Value)
    requires Folds(codec) && codec.lower(UPPER_SSN) == LOWER_SSN
    requires body != [] && codec.unmarshal(body) == Some(map[UPPER_SSN := v])
    ensures ApplyPolicy(sha, codec, DropPolicy(UPPER_SSN), service, action, body) == Applied(body, false)
    ensures ApplyPolicy(sha, codec, DropPolicy(LOWER_SSN), service, action, body) == Applied(codec.marshalObject(map[]), true)
  {
    var obj: Object := map[UPPER_SSN := v];
    assert UPPER_SSN in obj && Touches(sha, codec, DropPolicy(LOWER_SSN), obj, UPPER_SSN);
    assert Redacted(sha, codec, DropPolicy(LOWER_SSN), obj) == map[];
    assert MatchingRules(DropPolicy(LOWER_SSN), service, action) == DropPolicy(LOWER_SSN);
    assert MatchingRules(DropPolicy(UPPER_SSN), service, action) == DropPolicy(UPPER_SSN);
  }

  /** The first rule that lists a name, or the number of rules. */
  function DecidingRule(rules: seq<Rule<Bytes>>, name: Bytes): (i: nat)
    ensures i <= |rules| && (i < |rules| ==> name in rules[i].fields)
    ensures forall j :: 0 <= j < i ==> name !in rules[j].fields
  {
    if rules == [] || name in rules[0].fields then 0 else 1 + DecidingRule(rules[1..], name)
  }

  ghost predicate ListsAnyCase(codec: Codec, r: Rule<Bytes>, key: Bytes)
  {
    exists f :: f in r.fields && codec.lower(f) == codec.lower(key)
  }

  /** The rule that is documented to decide a key: the first that lists it in any case. */
  ghost function DocumentedRule(codec: Codec, rules: seq<Rule<Bytes>>, key: Bytes): (i: nat)
    ensures i <= |rules| && (i < |rules| ==> ListsAnyCase(codec, rules[i], key))
    ensures forall j :: 0 <= j < i ==> !ListsAnyCase(codec, rules[j], key)
  {
    if rules == [] || ListsAnyCase(codec, rules[0], key) then 0 else 1 + DocumentedRule(codec, rules[1..], key)
  }

  /** Every name is also listed in folded form, by its own rule or an earlier one. */
  ghost predicate FoldedFormsListed(codec: Codec, rules: seq<Rule<Bytes>>)
  {
    forall i, f :: 0 <= i < |rules| && f in rules[i].fields ==> DecidingRule(rules, codec.lower(f)) <= i
  }

  /** Matching is case-insensitive as documented, for every key, exactly when every
      field name is also listed in folded form no later. */
  lemma CaseInsensitiveIff(codec: Codec, rules: seq<Rule<Bytes>>)
    requires Folds(codec)
    ensures (forall key :: DecidingRule(rules, codec.lower(key)) == DocumentedRule(codec, rules, key))
            <==> FoldedFormsListed(codec, rules)
  {
    hide DecidingRule, DocumentedRule;
    if forall key :: DecidingRule(rules, codec.lower(key)) == DocumentedRule(codec, rules, key) {
      forall i, f | 0 <= i < |rules| && f in rules[i].fields
        ensures DecidingRule(rules, codec.lower(f)) <= i
      {
        assert ListsAnyCase(codec, rules[i], f);
        assert DecidingRule(rules, codec.lower(f)) == DocumentedRule(codec, rules, f);
      }
    }
    if FoldedFormsListed(codec, rules) {
      forall key
        ensures DecidingRule(rules, codec.lower(key)) == DocumentedRule(codec, rules, key)
      {
        SameDecision(codec, rules, key);
      }
    }
  }

  lemma SameDecision(codec: Codec, rules: seq<Rule<Bytes>>, key: Bytes)
    requires Folds(codec) && FoldedFormsListed(codec, rules)
    ensures DecidingRule(rules, codec.lower(key)) == DocumentedRule(codec, rules, key)
  {
    var d, e := DecidingRule(rules, codec.lower(key)), DocumentedRule(codec, rules, key);
    if d < |rules| {
      assert codec.lower(codec.lower(key)) == codec.lower(key);
      assert ListsAnyCase(codec, rules[d], key);
    }
    if e < |rules| {
      var f :| f in rules[e].fields && codec.lower(f) == codec.lower(key);
      assert d <= e;
    }
  }

  /** The deciding rule does decide. */
  lemma DecidingRuleDecides(rules: seq<Rule<Bytes>>, name: Bytes)
    ensures var i := DecidingRule(rules, name);
            FateOf(rules, name) == if i < |rules| then Some(rules[i].fields[name]) else None
  {
    var i := DecidingRule(rules, name);
    if i < |rules| {
      FirstListingRuleDecides(rules, name, i);
    }
  }
}

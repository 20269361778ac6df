/** The text form of a page cursor: "ts|id", the empty string for no cursor. */
module Cursor {
  import opened ByteStrings
  import opened Events

  const BAR: Byte := 124

  /** Timestamp printing and parsing in RFC 3339 form. */
  datatype TimeFormat = TimeFormat(show: Time -> Bytes, parse: Bytes -> Option<Time>)

  function CursorText(tf: TimeFormat, c: Key): Bytes
  {
    if c.ts == ZERO_TIME && c.id == [] then [] else tf.show(c.ts) + [BAR] + c.id
  }

  /** Position of the first bar, or the length if there is none. */
  function FirstBar(s: Bytes): (n: nat)
    ensures n <= |s| && (n < |s| ==> s[n] == BAR)
    ensures forall i :: 0 <= i < n ==> s[i] != BAR
  {
    if s == [] || s[0] == BAR then 0 else 1 + FirstBar(s[1..])
  }

  /** Everything before the first bar is the timestamp; the id is all the rest. */
  function ParsedCursor(tf: TimeFormat, s: Bytes): Option<Key>
  {
    var n := FirstBar(s);
    if s == [] then Some(NO_CURSOR)
    else if n == |s| then None
    else
      match tf.parse(s[..n])
      case Some(ts) => Some(Key(ts, s[n + 1..]))
      case None => None
  }

  method ParseCursor(tf: TimeFormat, s: Bytes) returns (r: Option<Key>)
    ensures r == ParsedCursor(tf, s)
  {
    if s == [] {
      return Some(NO_CURSOR);
    }
    for i := 0 to |s|
      invariant i <= FirstBar(s)
    {
      if s[i] == BAR {
        var ts := tf.parse(s[..i]);
        return if ts == None then None else Some(Key(ts.value, s[i + 1..]));
      }
    }
    return None;
  }

  /** A printed cursor parses back to itself, even if the id contains bars, for every
      timestamp whose printed form has no bar and parses back. */
  lemma CursorRoundTrip(tf: TimeFormat, c: Key)
    requires BAR !in tf.show(c.ts) && tf.parse(tf.show(c.ts)) == Some(c.ts)
    ensures ParsedCursor(tf, CursorText(tf, c)) == Some(c)
  {
    var s, n := CursorText(tf, c), |tf.show(c.ts)|;
    if s != [] {
      assert s[..n] == tf.show(c.ts) && s[n] == BAR && s[n + 1..] == c.id;
      assert forall i :: 0 <= i < n ==> s[i] == tf.show(c.ts)[i];
      assert FirstBar(s) == n;
    }
  }

  /** What is accepted, and as what: the empty text, or a text whose part before the first
      bar is a time; the rest after this bar is the id. All else is rejected. */
  lemma AcceptedIff(tf: TimeFormat, s: Bytes, k: Key)
    ensures ParsedCursor(tf, s) == Some(k) <==>
            (s == [] && k == Key(ZERO_TIME, []))
            || exists n :: 0 <= n < |s| && s[n] == '|' as int && '|' as int !in s[..n] && tf.parse(s[..n]) == Some(k.ts) && s[n + 1..] == k.id
  {
    var n := FirstBar(s);
    if m :| 0 <= m < |s| && s[m] == '|' as int && '|' as int !in s[..m] && tf.parse(s[..m]) == Some(k.ts) && s[m + 1..] == k.id {
      assert forall i :: 0 <= i < m ==> s[i] in s[..m];
      assert n == m;
    }
  }

  /** Only the empty cursor has the empty text. */
  lemma EmptyTextIff(tf: TimeFormat, c: Key)
    ensures CursorText(tf, c) == [] <==> c.ts == ZERO_TIME && c.id == []
  {
  }
}

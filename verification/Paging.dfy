/** Filtered keyset paging: two page rules, the drain loop that reads page after
    page, and what the drained list is. */
module Paging {
  import opened ByteStrings
  import opened Events
  import opened Chain
  import opened Rows

  // ---- which rows a filter selects ----

  predicate InWindow(f: Filter, e: Event)
  {
    (f.from == ZERO_TIME || f.from <= e.sealed.ts) && (f.to == ZERO_TIME || e.sealed.ts < f.to)
  }

  predicate Matches(f: Filter, e: Event)
  {
    && InWindow(f, e)
    && (f.service == [] || e.sealed.service == f.service)
    && (f.actor == [] || e.sealed.actor == f.actor)
    && (f.action == [] || e.sealed.action == f.action)
    && (f.targetType == [] || e.sealed.targetType == f.targetType)
    && (f.targetID == [] || e.sealed.targetID == f.targetID)
  }

  predicate HasCursor(c: Key) { c.ts != ZERO_TIME || c.id != [] }

  predicate Wanted(f: Filter, e: Event)
  {
    Matches(f, e) && (HasCursor(f.cursor) ==> KeyLess(f.cursor, KeyOf(e)))
  }

  /** The rows the filter and cursor select, in table order. */
  function Select(rows: seq<Event>, f: Filter): (s: seq<Event>)
    ensures |s| <= |rows|
  {
    if rows == [] then []
    else Select(rows[..|rows| - 1], f) + if Wanted(f, rows[|rows| - 1]) then [rows[|rows| - 1]] else []
  }

  /** Which rows a filter selects, field by field: those in its window that carry the
      value of every field it sets and lie after its cursor if it has one. */
  lemma {:induction false} SelectedIff(rows: seq<Event>, f: Filter, e: Event)
    ensures e in Select(rows, f) <==>
            && e in rows
            && (f.from != ZERO_TIME ==> f.from <= e.sealed.ts)
            && (f.to != ZERO_TIME ==> e.sealed.ts < f.to)
            && (f.service != [] ==> e.sealed.service == f.service)
            && (f.actor != [] ==> e.sealed.actor == f.actor)
            && (f.action != [] ==> e.sealed.action == f.action)
            && (f.targetType != [] ==> e.sealed.targetType == f.targetType)
            && (f.targetID != [] ==> e.sealed.targetID == f.targetID)
            && (f.cursor.ts != ZERO_TIME || f.cursor.id != [] ==>
                  f.cursor.ts < e.sealed.ts || (f.cursor.ts == e.sealed.ts && StrLess(f.cursor.id, e.sealed.id)))
  {
    if rows != [] {
      var n := |rows| - 1;
      SelectedIff(rows[..n], f, e);
      assert rows == rows[..n] + [rows[n]];
    }
  }

  /** g sets nothing that f does not set to the same value. */
  predicate Loosens(g: Filter, f: Filter)
  {
    && g.from in {ZERO_TIME, f.from} && g.to in {ZERO_TIME, f.to}
    && g.service in {[], f.service} && g.actor in {[], f.actor} && g.action in {[], f.action}
    && g.targetType in {[], f.targetType} && g.targetID in {[], f.targetID}
    && g.cursor in {NO_CURSOR, f.cursor}
  }

  /** Clearing parts of a filter only adds rows, and filtering in two steps is the same
      as filtering at once. */
  lemma {:induction false} LooserFirst(rows: seq<Event>, f: Filter, g: Filter)
    requires Loosens(g, f)
    ensures Select(rows, f) == Select(Select(rows, g), f)
    ensures forall e :: e in Select(rows, f) ==> e in Select(rows, g)
  {
    if rows != [] {
      hide Matches, InWindow, HasCursor, KeyLess;
      var n := |rows| - 1;
      LooserFirst(rows[..n], f, g);
      LoosensWanted(f, g, rows[n]);
      var front := Select(rows[..n], g);
      if Wanted(g, rows[n]) {
        SelectSnoc(front, f, rows[n]);
      } else {
        assert front + [] == front && Select(rows[..n], f) + [] == Select(rows[..n], f);
      }
    }
  }

  lemma LoosensWanted(f: Filter, g: Filter, e: Event)
    requires Loosens(g, f)
    ensures Wanted(f, e) ==> Wanted(g, e)
  {
  }

  lemma SelectSnoc(rows: seq<Event>, f: Filter, e: Event)
    ensures Select(rows + [e], f) == Select(rows, f) + if Wanted(f, e) then [e] else []
  {
    assert (rows + [e])[..|rows|] == rows;
  }

  /** Both filters at once: h asks for what f asks for and for what g asks for. */
  predicate AsksForBoth(h: Filter, f: Filter, g: Filter)
  {
    && AsksBoth(h.service, f.service, g.service) && AsksBoth(h.actor, f.actor, g.actor)
    && AsksBoth(h.action, f.action, g.action) && AsksBoth(h.targetType, f.targetType, g.targetType)
    && AsksBoth(h.targetID, f.targetID, g.targetID)
    && h.from == (if f.from == ZERO_TIME || (g.from != ZERO_TIME && f.from < g.from) then g.from else f.from)
    && h.to == (if f.to == ZERO_TIME || (g.to != ZERO_TIME && g.to < f.to) then g.to else f.to)
    && h.cursor == f.cursor && g.cursor == NO_CURSOR
  }

  predicate AsksBoth(h: Bytes, f: Bytes, g: Bytes)
  {
    (f == [] && h == g) || (g == [] && h == f) || h == f == g
  }

  /** Two filters combine to the rows that both select. */
  lemma FiltersCombine(rows: seq<Event>, h: Filter, f: Filter, g: Filter, e: Event)
    requires AsksForBoth(h, f, g)
    ensures e in Select(rows, h) <==> e in Select(rows, f) && e in Select(rows, g)
  {
    SelectedIff(rows, h, e);
    SelectedIff(rows, f, e);
    SelectedIff(rows, g, e);
  }

  lemma SelectNext(rows: seq<Event>, f: Filter, i: nat)
    requires i < |rows|
    ensures Select(rows[..i + 1], f) == Select(rows[..i], f) + if Wanted(f, rows[i]) then [rows[i]] else []
  {
    assert rows[..i + 1][..i] == rows[..i];
  }

  /** The selection of rows that are not empty, from that of all but the last. */
  lemma SelectLast(rows: seq<Event>, f: Filter)
    ensures rows == [] ==> Select(rows, f) == []
    ensures rows != [] ==>
              var n := |rows| - 1;
              Select(rows, f) == Select(rows[..n], f) + if Wanted(f, rows[n]) then [rows[n]] else []
  {
  }

  lemma {:induction false} SelectConcat(a: seq<Event>, b: seq<Event>, f: Filter)
    ensures Select(a + b, f) == Select(a, f) + Select(b, f)
    decreases |b|
  {
    hide Select, Wanted;
    SelectLast(b, f);
    SelectLast(a + b, f);
    if b == [] {
      assert a + b == a;
    } else {
      var n := |b| - 1;
      SelectConcat(a, b[..n], f);
      assert (a + b)[..|a + b| - 1] == a + b[..n];
    }
  }

  lemma {:induction false} SelectNone(rows: seq<Event>, f: Filter)
    requires forall i :: 0 <= i < |rows| ==> !Wanted(f, rows[i])
    ensures Select(rows, f) == []
  {
    if rows != [] {
      SelectNone(rows[..|rows| - 1], f);
    }
  }

  lemma {:induction false} SelectAgree(a: seq<Event>, f: Filter, b: seq<Event>, g: Filter)
    requires SameRowsButFlags(a, b)
    requires forall i :: 0 <= i < |a| ==> (Wanted(f, a[i]) <==> Wanted(g, b[i]))
    ensures SameRowsButFlags(Select(a, f), Select(b, g))
    ensures a == b ==> Select(a, f) == Select(b, g)
  {
    hide Select, Wanted;
    SelectLast(a, f);
    SelectLast(b, g);
    if a != [] {
      var n := |a| - 1;
      SelectAgree(a[..n], f, b[..n], g);
      assert SameButFlags(a[n], b[n]) && (Wanted(f, a[n]) <==> Wanted(g, b[n]));
    }
  }

  /** Selection holds exactly the wanted rows, each once, in table order. */
  lemma {:induction false} SelectExact(rows: seq<Event>, f: Filter)
    requires Sorted(rows)
    ensures Sorted(Select(rows, f))
    ensures forall e :: e in Select(rows, f) <==> e in rows && Wanted(f, e)
  {
    if rows != [] {
      var n := |rows| - 1;
      var s, last := Select(rows[..n], f), rows[n];
      SelectExact(rows[..n], f);
      forall i | 0 <= i < |s|
        ensures Before(s[i], last)
      {
        assert s[i] in rows[..n];
      }
      assert rows == rows[..n] + [last];
    }
  }

  /** Position in the table of the m-th selected row. */
  lemma {:induction false} SelectedAt(rows: seq<Event>, f: Filter, m: nat) returns (q: nat)
    requires 0 < m <= |Select(rows, f)|
    ensures q < |rows| && rows[q] == Select(rows, f)[m - 1] && Wanted(f, rows[q])
    ensures Select(rows[..q + 1], f) == Select(rows, f)[..m]
  {
    hide Select, Wanted;
    SelectLast(rows, f);
    var n := |rows| - 1;
    if m == |Select(rows, f)| && Wanted(f, rows[n]) {
      assert rows[..n + 1] == rows;
      q := n;
    } else {
      q := SelectedAt(rows[..n], f, m);
      assert rows[..n][..q + 1] == rows[..q + 1];
    }
  }

  /** Continuing from the key of the m-th selected row selects exactly the rest. */
  lemma CursorResumes(rows: seq<Event>, f: Filter, m: nat)
    requires Sorted(rows) && Stamped(rows) && 0 < m <= |Select(rows, f)|
    ensures Select(rows, f.(cursor := KeyOf(Select(rows, f)[m - 1]))) == Select(rows, f)[m..]
  {
    hide Select;
    var q := SelectedAt(rows, f, m);
    var g := f.(cursor := KeyOf(rows[q]));
    var a, b := rows[..q + 1], rows[q + 1..];
    assert rows == a + b;
    SelectConcat(a, b, f);
    SelectConcat(a, b, g);
    forall i | 0 <= i < |a|
      ensures !Wanted(g, a[i])
    {
      SortedKeyApart(rows, q, i);
    }
    SelectNone(a, g);
    forall i | 0 <= i < |b|
      ensures Wanted(f, b[i]) <==> Wanted(g, b[i])
    {
      ResumedWanted(f, rows[q], b[i]);
    }
    SelectAgree(b, f, b, g);
  }

  lemma ResumedWanted(f: Filter, x: Event, e: Event)
    requires Wanted(f, x) && Before(x, e) && x.sealed.ts != ZERO_TIME
    ensures Wanted(f, e) <==> Wanted(f.(cursor := KeyOf(x)), e)
  {
    if HasCursor(f.cursor) {
      KeyLessTransitive(f.cursor, KeyOf(x), KeyOf(e));
    }
  }

  lemma {:induction false} SelectSlice(rows: seq<Event>, f: Filter, lo: nat, hi: nat)
    requires lo <= hi <= |rows|
    requires forall i :: 0 <= i < |rows| ==> (Wanted(f, rows[i]) <==> lo <= i < hi)
    ensures Select(rows, f) == rows[lo..hi]
    decreases |rows|
  {
    hide Select, Wanted;
    SelectLast(rows, f);
    if rows != [] {
      var n := |rows| - 1;
      var front := rows[..n];
      if hi <= n {
        SelectSlice(front, f, lo, hi);
        assert front[lo..hi] == rows[lo..hi];
      } else if lo <= n {
        SelectSlice(front, f, lo, n);
        assert rows[lo..hi] == front[lo..n] + [rows[n]];
      } else {
        SelectSlice(front, f, n, n);
      }
    }
  }

  /** A time window of a sorted table is one contiguous slice of it. */
  lemma WindowIsSlice(rows: seq<Event>, f: Filter) returns (lo: nat, hi: nat)
    requires Sorted(rows) && f == NO_FILTER.(from := f.from, to := f.to, limit := f.limit)
    ensures lo <= hi <= |rows| && Select(rows, f) == rows[lo..hi]
  {
    lo := FirstAtLeast(rows, f.from);
    hi := FirstAtLeast(rows, f.to);
    lo := if f.from == ZERO_TIME then 0 else lo;
    hi := if f.to == ZERO_TIME then |rows| else hi;
    hi := if hi < lo then lo else hi;
    forall i | 0 <= i < |rows|
      ensures Wanted(f, rows[i]) <==> lo <= i < hi
    {
      assert Wanted(f, rows[i]) <==> InWindow(f, rows[i]);
    }
    SelectSlice(rows, f, lo, hi);
  }

  lemma {:induction false} FirstAtLeast(rows: seq<Event>, t: Time) returns (n: nat)
    requires Sorted(rows)
    ensures n <= |rows|
    ensures forall i :: 0 <= i < n ==> rows[i].sealed.ts < t
    ensures forall i :: n <= i < |rows| ==> t <= rows[i].sealed.ts
  {
    if rows == [] || rows[|rows| - 1].sealed.ts < t {
      n := |rows|;
      assert forall i :: 0 <= i < |rows| - 1 ==> Before(rows[i], rows[|rows| - 1]);
    } else {
      n := FirstAtLeast(rows[..|rows| - 1], t);
    }
  }

  // ---- one page ----

  datatype ListResult = ListResult(events: seq<Event>, next: Key)

  /** The in-memory store offers a cursor whenever the page is full; the SQL store
      reads one row more than the limit and offers one only if that row exists. */
  datatype PageRule = FullPage | LookAhead

  function EffectiveLimit(n: int): nat
  {
    if n <= 0 || n > 1000 then 1000 else n
  }

  predicate More(rule: PageRule, selected: nat, limit: nat)
  {
    match rule
    case FullPage => selected >= limit
    case LookAhead => selected > limit
  }

  function Page(rule: PageRule, rows: seq<Event>, f: Filter): ListResult
  {
    var s, limit := Select(rows, f), EffectiveLimit(f.limit);
    ListResult(
      if |s| >= limit then s[..limit] else s,
      if More(rule, |s|, limit) then KeyOf(s[limit - 1]) else NO_CURSOR)
  }

  /** How many rows a page holds: all that are selected, but at most the limit, which is
      1000 unless it is set to a positive number below. */
  lemma PageLength(rule: PageRule, rows: seq<Event>, f: Filter)
    ensures var n, limit := |Select(rows, f)|, if 0 < f.limit < 1000 then f.limit else 1000;
            |Page(rule, rows, f).events| == if n < limit then n else limit
  {
  }

  /** The SQL store's rule as its code applies it: `fetched` is what a query with
      `LIMIT limit + 1` returned. */
  method CutLookAhead(rows: seq<Event>, f: Filter, fetched: seq<Event>) returns (res: ListResult)
    requires var s, limit := Select(rows, f), EffectiveLimit(f.limit);
             fetched == if |s| > limit then s[..limit + 1] else s
    ensures res == Page(LookAhead, rows, f)
  {
    var limit := if f.limit <= 0 || f.limit > 1000 then 1000 else f.limit;
    res := ListResult(fetched, NO_CURSOR);
    if |fetched| > limit {
      var last := fetched[limit - 1];
      res := ListResult(fetched[..limit], KeyOf(last));
      assert fetched[..limit] == Select(rows, f)[..limit];
    }
  }

  // ---- draining a fixed table ----

  /** What one call with a given limit returns, and where its cursor resumes. */
  lemma PageFacts(rule: PageRule, rows: seq<Event>, f: Filter, limit: int)
    requires Sorted(rows) && Stamped(rows)
    ensures var s, p, n := Select(rows, f), Page(rule, rows, f.(limit := limit)), EffectiveLimit(limit);
            && p.events == (if |s| >= n then s[..n] else s)
            && (p.next.ts == ZERO_TIME <==> !More(rule, |s|, n))
            && (More(rule, |s|, n) ==>
                  p.next == KeyOf(s[n - 1]) && Select(rows, f.(cursor := p.next)) == s[n..])
  {
    hide Select, Sorted;
    var s, n := Select(rows, f), EffectiveLimit(limit);
    SelectAgree(rows, f, rows, f.(limit := limit));
    if More(rule, |s|, n) {
      CursorResumes(rows, f, n);
      var q := SelectedAt(rows, f, n);
    }
  }

  /** Read page after page until a page is empty or offers no cursor. The k-th call
      asks for limits(k) rows. The result is all rows read and the calls made. */
  function Drain(rule: PageRule, rows: seq<Event>, f: Filter, limits: nat -> int, k: nat): (r: (seq<Event>, nat))
    requires Sorted(rows) && Stamped(rows)
    ensures r.0 == Select(rows, f)
    decreases |Select(rows, f)|
  {
    PageFacts(rule, rows, f, limits(k));
    var p := Page(rule, rows, f.(limit := limits(k)));
    if p.events == [] || p.next.ts == ZERO_TIME then (p.events, 1)
    else
      var rest := Drain(rule, rows, f.(cursor := p.next), limits, k + 1);
      (p.events + rest.0, rest.1 + 1)
  }

  /** Calls needed for n wanted rows, one full page at a time. */
  function Calls(rule: PageRule, n: nat, limit: nat): nat
    requires limit > 0
  {
    if More(rule, n, limit) then 1 + Calls(rule, n - limit, limit) else 1
  }

  /** Whatever the limits, both rules drain to the same list: exactly the wanted
      rows, once each, in order. */
  lemma DrainsAgree(rows: seq<Event>, f: Filter, limits: nat -> int, others: nat -> int)
    requires Sorted(rows) && Stamped(rows)
    ensures Drain(FullPage, rows, f, limits, 0).0 == Drain(LookAhead, rows, f, others, 0).0
    ensures Sorted(Drain(FullPage, rows, f, limits, 0).0)
    ensures forall e :: e in Drain(FullPage, rows, f, limits, 0).0 <==> e in rows && Wanted(f, e)
  {
    SelectExact(rows, f);
  }

  lemma DrainStep(rule: PageRule, rows: seq<Event>, f: Filter, limits: nat -> int, k: nat)
    requires Sorted(rows) && Stamped(rows)
    ensures var s, n := Select(rows, f), EffectiveLimit(limits(k));
            var d := Drain(rule, rows, f, limits, k);
            if More(rule, |s|, n) then
              var g := f.(cursor := KeyOf(s[n - 1]));
              Select(rows, g) == s[n..] && d.1 == Drain(rule, rows, g, limits, k + 1).1 + 1
            else d.1 == 1
  {
    PageFacts(rule, rows, f, limits(k));
  }

  ghost predicate FixedLimit(limits: nat -> int, limit: nat)
  {
    limit > 0 && forall j: nat :: EffectiveLimit(limits(j)) == limit
  }

  lemma {:induction false} DrainCounts(rule: PageRule, rows: seq<Event>, f: Filter, limits: nat -> int, k: nat, limit: nat)
    requires Sorted(rows) && Stamped(rows)
    requires FixedLimit(limits, limit)
    ensures Drain(rule, rows, f, limits, k).1 == Calls(rule, |Select(rows, f)|, limit)
    decreases |Select(rows, f)|
  {
    hide Drain, Select, Sorted, Stamped, KeyLess;
    DrainStep(rule, rows, f, limits, k);
    var s := Select(rows, f);
    assert EffectiveLimit(limits(k)) == limit;
    if More(rule, |s|, limit) {
      var g := f.(cursor := KeyOf(s[limit - 1]));
      DrainCounts(rule, rows, g, limits, k + 1, limit);
      assert |Select(rows, g)| == |s| - limit;
    }
  }

  /** The closed form: n/L + 1 calls for the full-page rule, max(1, ceil(n/L)) for
      the look-ahead rule. */
  function CallsClosed(rule: PageRule, n: nat, limit: nat): int
    requires limit > 0
  {
    match rule
    case FullPage => n / limit + 1
    case LookAhead => if n == 0 then 1 else (n + limit - 1) / limit
  }

  /** What draining n wanted rows costs at a fixed limit, under either rule. */
  lemma DrainCalls(rule: PageRule, rows: seq<Event>, f: Filter, limits: nat -> int, limit: nat)
    requires Sorted(rows) && Stamped(rows) && FixedLimit(limits, limit)
    ensures Drain(rule, rows, f, limits, 0).1 == CallsClosed(rule, |Select(rows, f)|, limit)
  {
    CallsClosedForm(|Select(rows, f)|, limit);
    DrainCounts(rule, rows, f, limits, 0, limit);
  }

  lemma {:induction false} CallsClosedForm(n: nat, limit: nat)
    requires limit > 0
    ensures Calls(FullPage, n, limit) == CallsClosed(FullPage, n, limit)
    ensures Calls(LookAhead, n, limit) == CallsClosed(LookAhead, n, limit)
  {
    if n > limit {
      CallsClosedForm(n - limit, limit);
      QuotientStep(n, limit);
      QuotientStep(n + limit - 1, limit);
    } else {
      QuotientUnique(n, limit, if n == limit then 1 else 0);
      QuotientUnique(n + limit - 1, limit, if n == 0 then 0 else 1);
      QuotientUnique(0, limit, 0);
    }
  }

  lemma QuotientStep(n: nat, limit: nat)
    requires 0 < limit <= n
    ensures n / limit == (n - limit) / limit + 1
  {
    var q := (n - limit) / limit;
    assert q * limit <= n - limit < (q + 1) * limit;
    assert (q + 1) * limit <= n < (q + 2) * limit;
    QuotientUnique(n, limit, q + 1);
  }

  lemma QuotientUnique(n: nat, limit: nat, q: nat)
    requires limit > 0 && q * limit <= n < (q + 1) * limit
    ensures n / limit == q
  {
    var r := n / limit;
    assert r * limit <= n < (r + 1) * limit;
    assert 0 - limit < limit * (r - q) < limit;
    NonzeroMultiple(limit, r - q);
  }
}

/** The redaction policy document: its line parser, and a renderer it inverts.
    The document is text, so names here are strings of code points. */
module PolicyText {
  import opened ByteStrings
  import opened Redaction

  type Line = string

  // ---- the string helpers the parser uses ----

  /** unicode.IsSpace. */
  predicate IsSpace(c: char)
  {
    var n := c as int;
    || 9 <= n <= 13 || n == 32 || n == 0x85 || n == 0xA0 || n == 0x1680 || 0x2000 <= n <= 0x200a
    || n == 0x2028 || n == 0x2029 || n == 0x202f || n == 0x205f || n == 0x3000
  }

  function TrimLeft(s: string): string
  {
    if s != [] && IsSpace(s[0]) then TrimLeft(s[1..]) else s
  }

  function TrimRight(s: string): string
  {
    if s != [] && IsSpace(s[|s| - 1]) then TrimRight(s[..|s| - 1]) else s
  }

  function TrimSpace(s: string): string { TrimRight(TrimLeft(s)) }

  /** No white space at either end. */
  predicate Trimmed(s: string)
  {
    s != [] ==> !IsSpace(s[0]) && !IsSpace(s[|s| - 1])
  }

  function Split(s: string): (ls: seq<Line>)
    ensures ls != []
    decreases |s|
  {
    if s == [] then [""]
    else if s[0] == '\n' then [""] + Split(s[1..])
    else
      var rest := Split(s[1..]);
      [[s[0]] + rest[0]] + rest[1..]
  }

  function Unquote(s: string): string
  {
    if |s| >= 2 && ((s[0] == '"' && s[|s| - 1] == '"') || (s[0] == '\'' && s[|s| - 1] == '\''))
    then s[1..|s| - 1] else s
  }

  /** Position of the first colon, or the length if there is none. */
  function Colon(s: string): (n: nat)
    ensures n <= |s| && (n < |s| ==> s[n] == ':')
    ensures forall i :: 0 <= i < n ==> s[i] != ':'
  {
    if s == [] || s[0] == ':' then 0 else 1 + Colon(s[1..])
  }

  // ---- the parser ----

  type TextRule = Rule<string>

  /** Finished rules, and the rule being read. */
  datatype ParseState = ParseState(rules: seq<TextRule>, current: Option<TextRule>)

  function Finished(st: ParseState): seq<TextRule>
  {
    if st.current.Some? then st.rules + [st.current.value] else st.rules
  }

  function ValueAfter(line: Line, prefix: string): string
    requires prefix <= line
  {
    Unquote(TrimSpace(line[|prefix|..]))
  }

  /** What one trimmed line does. */
  function ParseLine(st: ParseState, line: Line): ParseState
  {
    if line == "" || "#" <= line || "rules:" <= line then st
    else if "- service:" <= line then
      ParseState(Finished(st), Some(Rule(ValueAfter(line, "- service:"), "", map[])))
    else if st.current == None then st
    else
      var cur := st.current.value;
      if "action:" <= line then st.(current := Some(cur.(action := ValueAfter(line, "action:"))))
      else if "fields:" <= line then st
      else
        var n := Colon(line);
        if n == |line| then st
        else
          var field, t := TrimSpace(line[..n]), TrimSpace(line[n + 1..]);
          if field in cur.fields then st
          else st.(current := Some(cur.(fields := cur.fields[field := t])))
  }

  function ParseLines(st: ParseState, lines: seq<Line>): ParseState
    decreases |lines|
  {
    if lines == [] then st else ParseLines(ParseLine(st, TrimSpace(lines[0])), lines[1..])
  }

  function ParseText(text: string): seq<TextRule>
  {
    Finished(ParseLines(ParseState([], None), Split(text)))
  }

  method Parse(text: string) returns (rules: seq<TextRule>)
    ensures rules == ParseText(text)
  {
    hide TrimSpace, Split, Unquote, Colon;
    var lines := Split(text);
    rules := [];
    var current: Option<TextRule> := None;
    for i := 0 to |lines|
      invariant ParseLines(ParseState(rules, current), lines[i..]) == ParseLines(ParseState([], None), lines)
    {
      var line := TrimSpace(lines[i]);
      ghost var st := ParseState(rules, current);
      assert lines[i..][1..] == lines[i + 1..] && ParseLines(st, lines[i..]) == ParseLines(ParseLine(st, line), lines[i + 1..]);
      if line == "" || "#" <= line {
        continue;
      }
      if "rules:" <= line {
        continue;
      }
      if "- service:" <= line {
        if current != None {
          rules := rules + [current.value];
        }
        current := Some(Rule(Unquote(TrimSpace(line[10..])), "", map[]));
        continue;
      }
      if current == None {
        continue;
      }
      var cur := current.value;
      if "action:" <= line {
        current := Some(cur.(action := Unquote(TrimSpace(line[7..]))));
      } else if "fields:" <= line {
      } else {
        var n := Colon(line);
        if n < |line| {
          var field, t := TrimSpace(line[..n]), TrimSpace(line[n + 1..]);
          if field !in cur.fields {
            current := Some(cur.(fields := cur.fields[field := t]));
          }
        }
      }
    }
    if current != None {
      rules := rules + [current.value];
    }
  }

  // ---- the renderer ----

  /** A service or action as written down: bare, or between quotes of either kind. */
  datatype Name = Bare(v: string) | Quoted(quote: char, v: string)

  function Written(n: Name): string
  {
    match n
    case Bare(v) => v
    case Quoted(q, v) => [q] + v + [q]
  }

  /** A rule as written down: its fields in some order. */
  datatype Entry = Entry(service: Name, action: Name, fields: seq<(string, string)>)

  /** The field map a list of fields denotes: the first mention of a name counts. */
  function FieldMap(fields: seq<(string, string)>, seen: map<string, string>): map<string, string>
  {
    if fields == [] then seen
    else
      var (f, t) := fields[0];
      FieldMap(fields[1..], if f in seen then seen else seen[f := t])
  }

  function RuleOf(e: Entry): TextRule { Rule(e.service.v, e.action.v, FieldMap(e.fields, map[])) }

  function RulesOf(es: seq<Entry>): seq<TextRule>
  {
    if es == [] then [] else [RuleOf(es[0])] + RulesOf(es[1..])
  }

  function FieldLines(fields: seq<(string, string)>): seq<Line>
  {
    if fields == [] then []
    else ["        " + (fields[0].0 + (": " + fields[0].1))] + FieldLines(fields[1..])
  }

  function NameLine(word: string, n: Name): Line { word + (": " + Written(n)) }

  function EntryLines(e: Entry): seq<Line>
  {
    ["  " + NameLine("- service", e.service), "    " + NameLine("action", e.action), "      fields:"] + FieldLines(e.fields)
  }

  function PolicyLines(es: seq<Entry>): seq<Line>
  {
    if es == [] then [] else EntryLines(es[0]) + PolicyLines(es[1..])
  }

  function Join(lines: seq<Line>): string
    requires lines != []
  {
    if |lines| == 1 then lines[0] else lines[0] + "\n" + Join(lines[1..])
  }

  function Render(es: seq<Entry>): string
  {
    Join(["rules:"] + PolicyLines(es))
  }

  // ---- which policies can be written down ----

  predicate OneLine(s: string) { '\n' !in s }

  /** A field name the grammar can carry: the reserved words would read as another
      kind of line, and a colon would end the name early. */
  predicate FieldName(f: string)
  {
    && OneLine(f) && Trimmed(f) && ':' !in f && !("#" <= f)
    && f != "rules" && f != "- service" && f != "action" && f != "fields"
  }

  /** A quoted name may hold anything; a bare one no surrounding blanks or quotes. */
  predicate WritableName(n: Name)
  {
    OneLine(n.v) && if n.Quoted? then n.quote in {'"', '\''} else Trimmed(n.v) && Unquote(n.v) == n.v
  }

  predicate Writable(e: Entry)
  {
    && WritableName(e.service) && WritableName(e.action)
    && forall i :: 0 <= i < |e.fields| ==>
         FieldName(e.fields[i].0) && OneLine(e.fields[i].1) && Trimmed(e.fields[i].1)
  }

  // ---- proofs ----

  lemma {:induction false} SplitLine(l: string, rest: string)
    requires OneLine(l)
    ensures Split(l) == [l]
    ensures Split(l + "\n" + rest) == [l] + Split(rest)
  {
    if l == [] {
      assert l + "\n" + rest == ['\n'] + rest;
      assert (['\n'] + rest)[1..] == rest;
    } else {
      SplitLine(l[1..], rest);
      assert (l + "\n" + rest)[1..] == l[1..] + "\n" + rest;
      assert l == [l[0]] + l[1..];
    }
  }

  lemma {:induction false} SplitJoin(lines: seq<Line>)
    requires lines != [] && forall i :: 0 <= i < |lines| ==> OneLine(lines[i])
    ensures Split(Join(lines)) == lines
  {
    if |lines| == 1 {
      SplitLine(lines[0], "");
    } else {
      SplitJoin(lines[1..]);
      SplitLine(lines[0], Join(lines[1..]));
      assert lines == [lines[0]] + lines[1..];
    }
  }

  lemma {:induction false} TrimLeftIndent(indent: string, s: string)
    requires forall i :: 0 <= i < |indent| ==> IsSpace(indent[i])
    requires s != [] ==> !IsSpace(s[0])
    ensures TrimLeft(indent + s) == s
  {
    if indent == [] {
      assert indent + s == s;
    } else {
      TrimLeftIndent(indent[1..], s);
      assert (indent + s)[1..] == indent[1..] + s;
    }
  }

  lemma {:induction false} TrimRightBlanks(s: string, n: nat)
    requires n <= |s| && forall i :: n <= i < |s| ==> IsSpace(s[i])
    requires n > 0 ==> !IsSpace(s[n - 1])
    ensures TrimRight(s) == s[..n]
    decreases |s|
  {
    if n < |s| {
      TrimRightBlanks(s[..|s| - 1], n);
      assert s[..|s| - 1][..n] == s[..n];
    } else {
      assert s[..n] == s;
    }
  }

  lemma TrimIndented(indent: string, s: string)
    requires forall i :: 0 <= i < |indent| ==> IsSpace(indent[i])
    requires Trimmed(s)
    ensures TrimSpace(indent + s) == s
  {
    TrimLeftIndent(indent, s);
    TrimRightBlanks(s, |s|);
    assert s[..|s|] == s;
  }

  /** A writable name comes back whole. */
  lemma WrittenReadsBack(n: Name)
    requires WritableName(n)
    ensures Trimmed(Written(n)) && OneLine(Written(n)) && Unquote(Written(n)) == n.v
  {
  }

  /** The condition on bare names is exact. */
  lemma BareReadBackIff(prefix: string, v: string)
    ensures ValueAfter(prefix + " " + v, prefix) == v <==> Trimmed(v) && Unquote(v) == v
  {
    var line := prefix + " " + v;
    assert line[|prefix|..] == " " + v;
    assert (" " + v)[1..] == v;
    TrimSpaceFacts(v);
    assert TrimSpace(" " + v) == TrimSpace(v);
    if Trimmed(v) {
      TrimIndented("", v);
      assert "" + v == v;
    }
    TrimNoLonger(v);
  }

  lemma TrimNoLonger(s: string)
    ensures |TrimSpace(s)| <= |s| && (|TrimSpace(s)| == |s| ==> TrimSpace(s) == s)
  {
    TrimLeftFacts(s);
    TrimRightFacts(TrimLeft(s));
  }

  lemma ServiceLine(st: ParseState, n: Name)
    requires WritableName(n)
    ensures ParseLine(st, TrimSpace("  " + NameLine("- service", n))) == ParseState(Finished(st), Some(Rule(n.v, "", map[])))
  {
    WrittenReadsBack(n);
    var tail := TrimNamedLine("  ", "- service", Written(n));
    var line := "- service" + ":" + tail;
    assert line[0] == '-' && line[..10] == "- service:" && line[10..] == tail;
  }

  lemma ActionLine(st: ParseState, n: Name)
    requires st.current.Some? && WritableName(n)
    ensures ParseLine(st, TrimSpace("    " + NameLine("action", n))) == st.(current := Some(st.current.value.(action := n.v)))
  {
    WrittenReadsBack(n);
    var tail := TrimNamedLine("    ", "action", Written(n));
    var line := "action" + ":" + tail;
    assert line[0] == 'a' && line[..7] == "action:" && line[7..] == tail;
  }

  lemma FieldsLine(st: ParseState)
    ensures ParseLine(st, TrimSpace("      fields:")) == st
  {
    assert "      fields:" == "      " + "fields:";
    TrimIndented("      ", "fields:");
    assert "fields:"[0] == 'f';
  }

  lemma RulesLine(st: ParseState)
    ensures ParseLine(st, TrimSpace("rules:")) == st
  {
  }

  /** A colon-terminated word prefixes a field line only if the name is that word. */
  lemma ReservedIff(f: string, tail: string, word: string)
    requires ':' !in f && ':' !in word
    ensures word + ":" <= f + ":" + tail <==> f == word
  {
    var w, l := word + ":", f + ":" + tail;
    assert forall i :: 0 <= i < |f| ==> l[i] == f[i] && l[i] != ':';
    assert forall i :: 0 <= i < |word| ==> w[i] == word[i] && w[i] != ':';
    if w <= l {
      assert w[|word|] == ':' && l[|f|] == ':' && l[|word|] == w[|word|];
      assert |f| == |word|;
      assert f == l[..|f|] && word == w[..|word|] && l[..|f|] == w[..|f|];
    }
    if f == word {
      assert l[..|w|] == w;
    }
  }

  lemma {:induction false} ColonAfter(f: string, tail: string)
    requires ':' !in f
    ensures Colon(f + ":" + tail) == |f|
  {
    var l := f + ":" + tail;
    assert l[|f|] == ':';
    assert forall i :: 0 <= i < |f| ==> l[i] == f[i];
  }

  /** A "name: value" line as TrimSpace leaves it; an empty value loses the blank. */
  lemma TrimNamedLine(indent: string, f: string, t: string) returns (tail: string)
    requires Trimmed(f) && Trimmed(t) && forall i :: 0 <= i < |indent| ==> IsSpace(indent[i])
    ensures TrimSpace(indent + (f + (": " + t))) == f + ":" + tail
    ensures TrimSpace(tail) == t
  {
    var s := f + (": " + t);
    var n := if t == [] then |f| + 1 else |s|;
    tail := if t == [] then "" else " " + t;
    assert s[..n] == f + ":" + tail;
    assert s[0] == if f == [] then ':' else f[0];
    TrimLeftIndent(indent, s);
    assert s[n - 1] == if t == [] then ':' else t[|t| - 1];
    TrimRightBlanks(s, n);
    if t == [] {
      TrimIndented("", "");
      assert "" + "" == tail;
    } else {
      TrimIndented(" ", t);
    }
  }

  lemma FieldLine(st: ParseState, f: string, t: string)
    requires st.current.Some? && FieldName(f) && Trimmed(t)
    ensures ParseLine(st, TrimSpace("        " + (f + (": " + t))))
            == var cur := st.current.value;
               st.(current := Some(cur.(fields := if f in cur.fields then cur.fields else cur.fields[f := t])))
  {
    hide TrimSpace, Trimmed, Finished, ValueAfter;
    var tail := TrimNamedLine("        ", f, t);
    NotReserved(f, tail);
    NameAndValue(f, tail);
  }

  /** No other kind of line begins with a field name. */
  lemma NotReserved(f: string, tail: string)
    requires FieldName(f)
    ensures var line := f + ":" + tail;
            line != "" && !("#" <= line) && !("rules:" <= line) && !("- service:" <= line) &&
            !("action:" <= line) && !("fields:" <= line)
  {
    hide Trimmed, OneLine;
    var line := f + ":" + tail;
    ReservedIff(f, tail, "rules");
    ReservedIff(f, tail, "- service");
    ReservedIff(f, tail, "action");
    ReservedIff(f, tail, "fields");
    assert "rules" + ":" == "rules:" && "- service" + ":" == "- service:" && "action" + ":" == "action:" && "fields" + ":" == "fields:";
    assert line[0] == if f == [] then ':' else f[0];
  }

  lemma NameAndValue(f: string, tail: string)
    requires Trimmed(f) && ':' !in f
    ensures var line := f + ":" + tail;
            Colon(line) == |f| && |f| < |line| && TrimSpace(line[..|f|]) == f && line[|f| + 1..] == tail
  {
    hide TrimSpace;
    var line := f + ":" + tail;
    ColonAfter(f, tail);
    assert line[..|f|] == f && line[|f| + 1..] == tail;
    TrimIndented("", f);
    assert "" + f == f;
  }

  lemma {:induction false} TrimLeftFacts(s: string)
    ensures TrimLeft(s) != [] ==> !IsSpace(TrimLeft(s)[0])
    ensures forall c :: c in TrimLeft(s) ==> c in s
    ensures |TrimLeft(s)| < |s| || TrimLeft(s) == s
  {
    if s != [] && IsSpace(s[0]) {
      TrimLeftFacts(s[1..]);
    }
  }

  lemma {:induction false} TrimRightFacts(s: string)
    ensures TrimRight(s) <= s
    ensures TrimRight(s) != [] ==> !IsSpace(TrimRight(s)[|TrimRight(s)| - 1])
  {
    if s != [] && IsSpace(s[|s| - 1]) {
      TrimRightFacts(s[..|s| - 1]);
    }
  }

  lemma TrimSpaceFacts(s: string)
    ensures Trimmed(TrimSpace(s))
    ensures forall c :: c in TrimSpace(s) ==> c in s
  {
    TrimLeftFacts(s);
    TrimRightFacts(TrimLeft(s));
  }

  /** The condition on field names is exact: a one-line name not yet in the rule is
      read back from its field line if and only if it is a FieldName. */
  lemma FieldReadBackIff(st: ParseState, f: string, t: string)
    requires st.current.Some? && f !in st.current.value.fields && OneLine(f) && Trimmed(t)
    ensures ParseLine(st, TrimSpace("        " + (f + (": " + t))))
            == st.(current := Some(st.current.value.(fields := st.current.value.fields[f := t])))
            <==> FieldName(f)
  {
    hide TrimSpace, Trimmed;
    assert "rules" + ":" == "rules:" && "- service" + ":" == "- service:" && "action" + ":" == "action:" && "fields" + ":" == "fields:";
    var line := TrimSpace("        " + (f + (": " + t)));
    var cur := st.current.value;
    if FieldName(f) {
      FieldLine(st, f, t);
    } else if ParseLine(st, line) == st.(current := Some(cur.(fields := cur.fields[f := t]))) {
      assert f in cur.fields[f := t];
      var n := Colon(line);
      assert n < |line| && TrimSpace(line[..n]) == f;
      TrimSpaceFacts(line[..n]);
      var tail := TrimNamedLine("        ", f, t);
      ReservedIff(f, tail, "rules");
      ReservedIff(f, tail, "- service");
      ReservedIff(f, tail, "action");
      ReservedIff(f, tail, "fields");
      HashPrefixKept(f, tail);
      assert false;
    }
  }

  lemma HashPrefixKept(f: string, tail: string)
    ensures "#" <= f ==> "#" <= f + ":" + tail
  {
  }

  lemma {:induction false} ParseFieldLines(st: ParseState, fields: seq<(string, string)>, rest: seq<Line>)
    requires st.current.Some?
    requires forall i :: 0 <= i < |fields| ==> FieldName(fields[i].0) && Trimmed(fields[i].1)
    ensures ParseLines(st, FieldLines(fields) + rest)
            == ParseLines(st.(current := Some(st.current.value.(fields := FieldMap(fields, st.current.value.fields)))), rest)
    decreases |fields|
  {
    hide ParseLine, TrimSpace, FieldName, Trimmed;
    if fields == [] {
      assert FieldLines(fields) + rest == rest;
    } else {
      var (f, t) := fields[0];
      var next := ParseLine(st, TrimSpace("        " + (f + (": " + t))));
      FieldLine(st, f, t);
      var lines := FieldLines(fields) + rest;
      assert lines[0] == "        " + (f + (": " + t)) && lines[1..] == FieldLines(fields[1..]) + rest;
      ParseFieldLines(next, fields[1..], rest);
    }
  }

  lemma ParseEntry(st: ParseState, e: Entry, rest: seq<Line>)
    requires Writable(e)
    ensures ParseLines(st, EntryLines(e) + rest) == ParseLines(ParseState(Finished(st), Some(RuleOf(e))), rest)
  {
    var all := EntryLines(e) + rest;
    var tail := FieldLines(e.fields) + rest;
    assert all[0] == "  " + NameLine("- service", e.service) && all[1] == "    " + NameLine("action", e.action);
    assert all[2] == "      fields:";
    assert all[1..][1..][1..] == tail;
    ServiceLine(st, e.service);
    var st1 := ParseState(Finished(st), Some(Rule(e.service.v, "", map[])));
    ActionLine(st1, e.action);
    var st2 := ParseState(Finished(st), Some(Rule(e.service.v, e.action.v, map[])));
    FieldsLine(st2);
    assert ParseLines(st, all) == ParseLines(st1, all[1..]) == ParseLines(st2, all[1..][1..]) == ParseLines(st2, tail);
    ParseFieldLines(st2, e.fields, rest);
  }

  lemma FinishedNext(st: ParseState, r: TextRule)
    ensures Finished(ParseState(Finished(st), Some(r))) == Finished(st) + [r]
  {
  }

  lemma {:induction false} ParseEntries(st: ParseState, es: seq<Entry>)
    requires forall i :: 0 <= i < |es| ==> Writable(es[i])
    ensures Finished(ParseLines(st, PolicyLines(es))) == Finished(st) + RulesOf(es)
    decreases |es|
  {
    hide Writable, EntryLines, ParseLine;
    if es != [] {
      hide ParseLines, RuleOf, Finished;
      FinishedNext(st, RuleOf(es[0]));
      var next := ParseState(Finished(st), Some(RuleOf(es[0])));
      ParseEntry(st, es[0], PolicyLines(es[1..]));
      ParseEntries(next, es[1..]);
      assert Finished(next) + RulesOf(es[1..]) == Finished(st) + RulesOf(es);
    }
  }

  lemma {:induction false} FieldLinesOneLine(fields: seq<(string, string)>)
    requires forall i :: 0 <= i < |fields| ==> OneLine(fields[i].0) && OneLine(fields[i].1)
    ensures forall i :: 0 <= i < |FieldLines(fields)| ==> OneLine(FieldLines(fields)[i])
  {
    if fields != [] {
      FieldLinesOneLine(fields[1..]);
    }
  }

  lemma NameLineOneLine(indent: string, word: string, n: Name)
    requires OneLine(indent) && OneLine(word) && WritableName(n)
    ensures OneLine(indent + NameLine(word, n))
  {
  }

  lemma FieldsOneLine(e: Entry)
    requires Writable(e)
    ensures forall i :: 0 <= i < |FieldLines(e.fields)| ==> OneLine(FieldLines(e.fields)[i])
  {
    hide Trimmed;
    FieldLinesOneLine(e.fields);
  }

  lemma {:induction false} PolicyLinesOneLine(es: seq<Entry>)
    requires forall i :: 0 <= i < |es| ==> Writable(es[i])
    ensures forall i :: 0 <= i < |PolicyLines(es)| ==> OneLine(PolicyLines(es)[i])
  {
    if es != [] {
      hide WritableName, Written, NameLine, FieldLines, FieldName, Trimmed;
      PolicyLinesOneLine(es[1..]);
      FieldsOneLine(es[0]);
      assert OneLine("      fields:");
      NameLineOneLine("  ", "- service", es[0].service);
      NameLineOneLine("    ", "action", es[0].action);
    }
  }

  /** Parsing what the renderer wrote gives back the same rules, in the same order,
      with the same field maps, for every writable policy. */
  lemma ParseRender(es: seq<Entry>)
    requires forall i :: 0 <= i < |es| ==> Writable(es[i])
    ensures ParseText(Render(es)) == RulesOf(es)
  {
    hide Writable, ParseLine, TrimSpace, Split, Join, PolicyLines, RulesOf;
    var lines := ["rules:"] + PolicyLines(es);
    PolicyLinesOneLine(es);
    SplitJoin(lines);
    var st := ParseState([], None);
    RulesLine(st);
    assert lines[0] == "rules:" && lines[1..] == PolicyLines(es);
    assert ParseLines(st, lines) == ParseLines(st, PolicyLines(es));
    ParseEntries(st, es);
  }

  // ---- documents as people write them ----

  ghost predicate Lines(ls: seq<Line>) { forall i :: 0 <= i < |ls| ==> OneLine(ls[i]) }

  /** The rules of a document given line by line. */
  function Document(ls: seq<Line>): seq<TextRule>
    requires ls != []
  {
    ParseText(Join(ls))
  }

  lemma DocumentIs(ls: seq<Line>)
    requires ls != [] && Lines(ls)
    ensures Document(ls) == Finished(ParseLines(ParseState([], None), ls))
  {
    hide Split, Join, ParseLines;
    SplitJoin(ls);
  }

  lemma {:induction false} ParseConcat(st: ParseState, a: seq<Line>, b: seq<Line>)
    ensures ParseLines(st, a + b) == ParseLines(ParseLines(st, a), b)
    decreases |a|
  {
    if a == [] {
      assert a + b == b;
    } else {
      hide ParseLine, TrimSpace;
      ParseConcat(ParseLine(st, TrimSpace(a[0])), a[1..], b);
      assert (a + b)[0] == a[0] && (a + b)[1..] == a[1..] + b;
    }
  }

  lemma ParseOne(st: ParseState, l: Line)
    ensures ParseLines(st, [l]) == ParseLine(st, TrimSpace(l))
  {
    hide ParseLine, TrimSpace;
    assert [l][1..] == [];
    assert ParseLines(ParseLine(st, TrimSpace(l)), []) == ParseLine(st, TrimSpace(l));
  }

  /** Blank lines, comments, the two headings, and lines without a colon. */
  predicate Neutral(l: Line)
  {
    var t := TrimSpace(l);
    t == "" || "#" <= t || "rules:" <= t || "fields:" <= t || ':' !in t
  }

  lemma PrefixChars(p: string, t: string)
    ensures p <= t ==> forall i :: 0 <= i < |p| ==> p[i] in t
  {
    if p <= t {
      assert forall i :: 0 <= i < |p| ==> p[i] == t[i];
    }
  }

  lemma NeutralLine(st: ParseState, l: Line)
    requires Neutral(l)
    ensures ParseLine(st, TrimSpace(l)) == st
  {
    hide TrimSpace, ValueAfter, Finished;
    var t := TrimSpace(l);
    if ':' !in t {
      assert "- service:"[9] == ':' && "action:"[6] == ':' && "fields:"[6] == ':';
      PrefixChars("- service:", t);
      PrefixChars("action:", t);
      PrefixChars("fields:", t);
      assert Colon(t) == |t|;
    } else if "fields:" <= t {
      assert t[0] == 'f' && "- service:"[0] == '-' && "action:"[0] == 'a';
    }
  }

  /** Such a line may stand anywhere in a document, within a rule too, without effect. */
  lemma NeutralLineIgnored(a: seq<Line>, l: Line, b: seq<Line>)
    requires a + b != [] && Lines(a) && Lines(b) && OneLine(l) && Neutral(l)
    ensures Document(a + [l] + b) == Document(a + b)
  {
    hide Document, ParseLines, ParseLine, Neutral, Finished;
    var st := ParseState([], None);
    DocumentIs(a + [l] + b);
    DocumentIs(a + b);
    ParseConcat(st, a, b);
    ParseConcat(st, a + [l], b);
    ParseConcat(st, a, [l]);
    ParseOne(ParseLines(st, a), l);
    NeutralLine(ParseLines(st, a), l);
  }

  predicate StartsRule(l: Line) { "- service:" <= TrimSpace(l) }

  lemma {:induction false} NothingBeforeFirstRule(ls: seq<Line>)
    requires forall i :: 0 <= i < |ls| ==> !StartsRule(ls[i])
    ensures ParseLines(ParseState([], None), ls) == ParseState([], None)
  {
    if ls != [] {
      hide TrimSpace;
      NothingBeforeFirstRule(ls[1..]);
      assert !StartsRule(ls[0]);
    }
  }

  /** Whatever stands before the first service line is ignored. */
  lemma PreambleIgnored(a: seq<Line>, b: seq<Line>)
    requires b != [] && Lines(a) && Lines(b) && forall i :: 0 <= i < |a| ==> !StartsRule(a[i])
    ensures Document(a + b) == Document(b)
  {
    hide Document, ParseLines, StartsRule;
    DocumentIs(a + b);
    DocumentIs(b);
    ParseConcat(ParseState([], None), a, b);
    NothingBeforeFirstRule(a);
  }

  /** Earlier rules stay in front, whatever follows. */
  lemma {:induction false} EarlierRulesStay(rules: seq<TextRule>, st: ParseState, ls: seq<Line>)
    ensures Finished(ParseLines(ParseState(rules + st.rules, st.current), ls)) == rules + Finished(ParseLines(st, ls))
    decreases |ls|
  {
    if ls == [] {
      assert st.current.Some? ==> rules + st.rules + [st.current.value] == rules + (st.rules + [st.current.value]);
    } else {
      hide ParseLine, Finished, TrimSpace;
      LineKeepsEarlier(rules, st, TrimSpace(ls[0]));
      EarlierRulesStay(rules, ParseLine(st, TrimSpace(ls[0])), ls[1..]);
    }
  }

  lemma LineKeepsEarlier(rules: seq<TextRule>, st: ParseState, l: Line)
    ensures var next := ParseLine(st, l);
            ParseLine(ParseState(rules + st.rules, st.current), l) == ParseState(rules + next.rules, next.current)
  {
    hide TrimSpace, Colon, ValueAfter;
    assert st.current.Some? ==> rules + st.rules + [st.current.value] == rules + (st.rules + [st.current.value]);
  }

  /** A document may be cut before any service line: its rules are those of the two parts. */
  lemma CutBeforeRule(a: seq<Line>, l: Line, b: seq<Line>)
    requires a != [] && Lines(a) && Lines(b) && OneLine(l) && StartsRule(l)
    ensures Document(a + ([l] + b)) == Document(a) + Document([l] + b)
  {
    hide Document, ParseLines, TrimSpace;
    var empty := ParseState([], None);
    var st := ParseLines(empty, a);
    DocumentIs(a);
    DocumentIs([l] + b);
    DocumentIs(a + ([l] + b));
    ParseConcat(empty, a, [l] + b);
    ParseConcat(st, [l], b);
    ParseConcat(empty, [l], b);
    ParseOne(st, l);
    ParseOne(empty, l);
    RuleLine(st, l);
    RuleLine(empty, l);
    var current := Some(Rule(ValueAfter(TrimSpace(l), "- service:"), "", map[]));
    EarlierRulesStay(Finished(st), ParseState([], current), b);
    assert Finished(st) + [] == Finished(st);
  }

  lemma RuleLine(st: ParseState, l: Line)
    requires StartsRule(l)
    ensures ParseLine(st, TrimSpace(l)) == ParseState(Finished(st), Some(Rule(ValueAfter(TrimSpace(l), "- service:"), "", map[])))
  {
    hide TrimSpace, ValueAfter, Finished;
    assert TrimSpace(l)[0] == '-' && "rules:"[0] == 'r' && "#"[0] == '#';
  }

  predicate IsActionLine(l: Line) { "action:" <= TrimSpace(l) }

  /** Of two action lines in a row the second counts. */
  lemma LastActionCounts(a: seq<Line>, l: Line, m: Line, b: seq<Line>)
    requires Lines(a) && Lines(b) && OneLine(l) && OneLine(m) && IsActionLine(l) && IsActionLine(m)
    ensures Document(a + [l] + [m] + b) == Document(a + [m] + b)
  {
    hide Document, ParseLines, ParseLine, IsActionLine, Finished, TrimSpace;
    var empty := ParseState([], None);
    var st := ParseLines(empty, a);
    DocumentIs(a + [l] + [m] + b);
    DocumentIs(a + [m] + b);
    ParseConcat(empty, a + [l] + [m], b);
    ParseConcat(empty, a + [l], [m]);
    ParseConcat(empty, a, [l]);
    ParseConcat(empty, a + [m], b);
    ParseConcat(empty, a, [m]);
    ParseOne(st, l);
    ParseOne(st, m);
    ParseOne(ParseLine(st, TrimSpace(l)), m);
    SecondAction(st, l, m);
  }

  lemma SecondAction(st: ParseState, l: Line, m: Line)
    requires IsActionLine(l) && IsActionLine(m)
    ensures ParseLine(ParseLine(st, TrimSpace(l)), TrimSpace(m)) == ParseLine(st, TrimSpace(m))
  {
    hide TrimSpace, ValueAfter, Finished, Colon;
    assert TrimSpace(l)[0] == 'a' && TrimSpace(m)[0] == 'a' && "rules:"[0] == 'r' && "#"[0] == '#' && "- service:"[0] == '-';
  }

  /** Indentation and trailing blanks, such as a carriage return, are of no account. */
  lemma {:induction false} BlanksIgnored(st: ParseState, a: seq<Line>, b: seq<Line>)
    requires |a| == |b| && forall i :: 0 <= i < |a| ==> TrimSpace(a[i]) == TrimSpace(b[i])
    ensures ParseLines(st, a) == ParseLines(st, b)
    decreases |a|
  {
    if a != [] {
      hide ParseLine, TrimSpace;
      BlanksIgnored(ParseLine(st, TrimSpace(a[0])), a[1..], b[1..]);
    }
  }

  /** Trimming removes exactly the blanks around a text without blanks at its ends. */
  lemma TrimIs(lead: string, s: string, tail: string)
    requires s != [] && Trimmed(s)
    requires (forall i :: 0 <= i < |lead| ==> IsSpace(lead[i])) && forall i :: 0 <= i < |tail| ==> IsSpace(tail[i])
    ensures TrimSpace(lead + (s + tail)) == s
  {
    hide IsSpace;
    TrimLeftIndent(lead, s + tail);
    TrimRightBlanks(s + tail, |s|);
    assert (s + tail)[..|s|] == s;
  }

  /** The blanks among the ASCII characters. */
  lemma AsciiBlanks(c: char)
    requires c < 128 as char
    ensures IsSpace(c) <==> c in {'\t', '\n', 11 as char, 12 as char, '\r', ' '}
  {
  }
}

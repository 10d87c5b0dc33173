/** The database commands: `find`, `search` and `searchadd` with their filter
    expression and result window, and `list`. */
module Database {
  import opened Wrappers
  import opened Text
  import opened Wire
  import Filters

  // ---------------------------------------------------------------------------
  // find / search / searchadd

  datatype FilterCommandKind = Find | Search | SearchAdd

  /** The command name; a single word, so it reads back as one argument. */
  function CommandName(kind: FilterCommandKind): (name: string)
    ensures IsBareWord(name)
  {
    match kind
    case Find => "find"
    case Search => "search"
    case SearchAdd => "searchadd"
  }

  /** The operator placed between a tag and its value in tag/value clauses. */
  function Operand(kind: FilterCommandKind): (op: string)
    ensures op == Filters.GetDescription(if kind == Find then Filters.Equal else Filters.Contains)
  {
    match kind
    case Find => "=="
    case Search => "contains"
    case SearchAdd => "contains"
  }

  /** What a command filters on: a list of tag/value pairs, or a list of
      filters. */
  datatype Criteria =
    | TagValues(pairs: seq<(string, string)>)
    | FilterList(filters: seq<Filters.Filter>)

  /** A find/search command; `start` and `end` delimit the result window. */
  datatype FilterCommand = FilterCommand(kind: FilterCommandKind, criteria: Criteria, start: Int32, end: Int32)

  /** The constructor from one tag and its search text: the list
      constructor given a list of that one pair. */
  function FromTag(kind: FilterCommandKind, tag: string, searchText: string,
                   windowStart: Int32 := -1, windowEnd: Int32 := -1): (cmd: FilterCommand)
    ensures cmd == FromTagValues(kind, [(tag, searchText)], windowStart, windowEnd)
  {
    FilterCommand(kind, TagValues([(tag, searchText)]), windowStart, windowEnd)
  }

  function FromTagValues(kind: FilterCommandKind, filters: seq<(string, string)>,
                         windowStart: Int32 := -1, windowEnd: Int32 := -1): FilterCommand
  {
    FilterCommand(kind, TagValues(filters), windowStart, windowEnd)
  }

  /** The constructor from one filter: the list constructor given a list of
      that one filter. */
  function FromFilter(kind: FilterCommandKind, filter: Filters.Filter,
                      windowStart: Int32 := -1, windowEnd: Int32 := -1): (cmd: FilterCommand)
    ensures cmd == FromFilters(kind, [filter], windowStart, windowEnd)
  {
    FilterCommand(kind, FilterList([filter]), windowStart, windowEnd)
  }

  function FromFilters(kind: FilterCommandKind, filters: seq<Filters.Filter>,
                       windowStart: Int32 := -1, windowEnd: Int32 := -1): FilterCommand
  {
    FilterCommand(kind, FilterList(filters), windowStart, windowEnd)
  }

  /** The three chained replacements of the find/search escape, before the
      value is wrapped in escaped quotes. */
  function EscapeChain(value: string): string {
    ReplaceChar(ReplaceChar(ReplaceChar(value, '\\', "\\\\\\\\"), '\'', "\\\\'"), '"', "\\\\\\\"")
  }

  /** The find/search escape: backslash to four backslashes, single quote to
      two backslashes and a quote, double quote to three backslashes and a
      quote, all wrapped in `\"`. */
  function Escape(value: string): string {
    "\\\"" + EscapeChain(value) + "\\\""
  }

  function TagClause(kind: FilterCommandKind, tag: string, value: string): string {
    "(" + tag + " " + Operand(kind) + " " + Escape(value) + ")"
  }

  function TagClauses(kind: FilterCommandKind, pairs: seq<(string, string)>): (r: seq<string>)
    ensures |r| == |pairs|
    decreases |pairs|
  {
    if pairs == [] then [] else [TagClause(kind, pairs[0].0, pairs[0].1)] + TagClauses(kind, pairs[1..])
  }

  function FormattedClauses(filters: seq<Filters.Filter>): (r: seq<string>)
    ensures |r| == |filters|
    decreases |filters|
  {
    if filters == [] then [] else [Filters.GetFormattedCommand(filters[0])] + FormattedClauses(filters[1..])
  }

  function Clauses(cmd: FilterCommand): seq<string> {
    match cmd.criteria
    case TagValues(pairs) => TagClauses(cmd.kind, pairs)
    case FilterList(filters) => FormattedClauses(filters)
  }

  function WindowSuffix(start: Int32, end: Int32): string {
    if start > -1 then " window " + IntToString(start) + ":" + IntToString(end) else ""
  }

  /** The request line: `<name> "(<clauses joined by AND>)"`, then the window
      when its start is not negative. */
  function Serialize(cmd: FilterCommand): string {
    CommandName(cmd.kind) + " \"(" + Join(" AND ", Clauses(cmd)) + ")\"" + WindowSuffix(cmd.start, cmd.end)
  }

  // ---------------------------------------------------------------------------
  // The two layers of escaping

  /** Characters escaped inside a string literal of the filter syntax. */
  const FilterSpecials: set<char> := {'\\', '\'', '"'}

  /** A value as a string literal of the filter syntax. */
  function FilterLiteral(value: string): string {
    "\"" + Escaped(value, FilterSpecials) + "\""
  }

  lemma {:induction false} EscapeChainAppend(a: string, b: string)
    ensures EscapeChain(a + b) == EscapeChain(a) + EscapeChain(b)
  {
    ReplaceCharAppend(a, b, '\\', "\\\\\\\\");
    var a1, b1 := ReplaceChar(a, '\\', "\\\\\\\\"), ReplaceChar(b, '\\', "\\\\\\\\");
    ReplaceCharAppend(a1, b1, '\'', "\\\\'");
    var a2, b2 := ReplaceChar(a1, '\'', "\\\\'"), ReplaceChar(b1, '\'', "\\\\'");
    ReplaceCharAppend(a2, b2, '"', "\\\\\\\"");
  }

  /** What the escape does to one character. */
  function EscapeOne(x: char): string {
    if x == '\\' then "\\\\\\\\"
    else if x == '\'' then "\\\\'"
    else if x == '"' then "\\\\\\\""
    else [x]
  }

  lemma EscapeChainChar(x: char)
    ensures EscapeChain([x]) == EscapeOne(x)
    ensures EscapeOne(x) == Escaped(Escaped([x], FilterSpecials), QuoteSpecials)
  {
    if x == '\\' {
      ChainOfBackslash(x);
    } else if x == '\'' {
      ChainOfSingleQuote(x);
    } else if x == '"' {
      ChainOfDoubleQuote(x);
    } else {
      ReplaceOne(x, '\\', "\\\\\\\\");
      ReplaceOne(x, '\'', "\\\\'");
      ReplaceOne(x, '"', "\\\\\\\"");
      EscapedOne(x, FilterSpecials);
      EscapedOne(x, QuoteSpecials);
    }
  }

  lemma ReplaceOne(x: char, c: char, r: string)
    ensures ReplaceChar([x], c, r) == if x == c then r else [x]
  {
  }

  lemma EscapedOne(x: char, special: set<char>)
    ensures Escaped([x], special) == if x in special then ['\\', x] else [x]
  {
  }

  lemma EscapedTwo(x: char, y: char, special: set<char>)
    ensures Escaped([x, y], special) == Escaped([x], special) + Escaped([y], special)
  {
    assert [x, y] == [x] + [y];
    EscapedAppend([x], [y], special);
  }

  lemma ChainOfBackslash(x: char)
    requires x == '\\'
    ensures EscapeChain([x]) == EscapeOne(x)
    ensures EscapeOne(x) == Escaped(Escaped([x], FilterSpecials), QuoteSpecials)
  {
    var four := "\\\\\\\\";
    ReplaceOne(x, '\\', four);
    ReplaceCharAbsent(four, '\'', "\\\\'");
    ReplaceCharAbsent(four, '"', "\\\\\\\"");
    EscapedOne(x, FilterSpecials);
    EscapedTwo(x, x, QuoteSpecials);
    EscapedOne(x, QuoteSpecials);
  }

  lemma ChainOfSingleQuote(x: char)
    requires x == '\''
    ensures EscapeChain([x]) == EscapeOne(x)
    ensures EscapeOne(x) == Escaped(Escaped([x], FilterSpecials), QuoteSpecials)
  {
    var three := "\\\\'";
    ReplaceOne(x, '\\', "\\\\\\\\");
    ReplaceOne(x, '\'', three);
    ReplaceCharAbsent(three, '"', "\\\\\\\"");
    EscapedOne(x, FilterSpecials);
    EscapedTwo('\\', x, QuoteSpecials);
    EscapedOne('\\', QuoteSpecials);
    EscapedOne(x, QuoteSpecials);
  }

  lemma ChainOfDoubleQuote(x: char)
    requires x == '"'
    ensures EscapeChain([x]) == EscapeOne(x)
    ensures EscapeOne(x) == Escaped(Escaped([x], FilterSpecials), QuoteSpecials)
  {
    ReplaceOne(x, '\\', "\\\\\\\\");
    ReplaceOne(x, '\'', "\\\\'");
    ReplaceOne(x, '"', "\\\\\\\"");
    EscapedOne(x, FilterSpecials);
    EscapedTwo('\\', x, QuoteSpecials);
    EscapedOne('\\', QuoteSpecials);
    EscapedOne(x, QuoteSpecials);
  }

  /** The chained replacements escape each character on its own, and they are
      the protocol-level escaping applied to the filter-syntax escaping. */
  lemma {:induction false} EscapeChainIsTwoLayers(v: string)
    ensures EscapeChain(v) == Escaped(Escaped(v, FilterSpecials), QuoteSpecials)
    decreases |v|
  {
    if v != [] {
      assert v == [v[0]] + v[1..];
      EscapeChainAppend([v[0]], v[1..]);
      EscapeChainChar(v[0]);
      EscapeChainIsTwoLayers(v[1..]);
      EscapedAppend([v[0]], v[1..], FilterSpecials);
      EscapedAppend(Escaped([v[0]], FilterSpecials), Escaped(v[1..], FilterSpecials), QuoteSpecials);
    }
  }

  /** The find/search escape is exactly the protocol-level escaping of the
      value's filter-syntax literal: each layer is applied once. */
  lemma EscapeIsTwoLayers(v: string)
    ensures Escape(v) == Escaped(FilterLiteral(v), QuoteSpecials)
  {
    EscapeChainIsTwoLayers(v);
    var inner := Escaped(v, FilterSpecials);
    EscapedAppend("\"", inner + "\"", QuoteSpecials);
    EscapedAppend(inner, "\"", QuoteSpecials);
    assert FilterLiteral(v) == "\"" + (inner + "\"");
  }

  /** The filter parser reads the literal back as the original value. */
  lemma FilterLiteralReadsBack(v: string, rest: string)
    ensures ReadQuoted(FilterLiteral(v)[1..] + rest) == Some((v, rest))
  {
    assert FilterLiteral(v)[1..] + rest == Escaped(v, FilterSpecials) + "\"" + rest;
    ReadEscaped(v, FilterSpecials, rest);
  }

  function Occurrences(s: string, c: char): nat
    decreases |s|
  {
    if s == [] then 0 else (if s[0] == c then 1 else 0) + Occurrences(s[1..], c)
  }

  /** Each backslash and double quote adds three characters, each single quote
      two, and the escaped quotes around the value four. */
  lemma {:induction false} EscapeChainLength(v: string)
    ensures |EscapeChain(v)| == |v| + 3 * Occurrences(v, '\\') + 2 * Occurrences(v, '\'') + 3 * Occurrences(v, '"')
    decreases |v|
  {
    if v != [] {
      assert v == [v[0]] + v[1..];
      EscapeChainAppend([v[0]], v[1..]);
      EscapeChainChar(v[0]);
      EscapeChainLength(v[1..]);
    }
  }

  lemma EscapeLength(v: string)
    ensures |Escape(v)| == |v| + 3 * Occurrences(v, '\\') + 2 * Occurrences(v, '\'') + 3 * Occurrences(v, '"') + 4
  {
    EscapeChainLength(v);
  }

  // ---------------------------------------------------------------------------
  // What the daemon reads from a find/search line

  /** One tag/value clause in the filter syntax, the value as a literal. */
  function LiteralClause(kind: FilterCommandKind, tag: string, value: string): string {
    "(" + tag + " " + Operand(kind) + " " + FilterLiteral(value) + ")"
  }

  function LiteralClauses(kind: FilterCommandKind, pairs: seq<(string, string)>): (r: seq<string>)
    ensures |r| == |pairs|
    decreases |pairs|
  {
    if pairs == [] then [] else [LiteralClause(kind, pairs[0].0, pairs[0].1)] + LiteralClauses(kind, pairs[1..])
  }

  /** One filter as the daemon reads it: `(Name op "Value")`, negated as
      `(!...)`. */
  function ReadFormatted(f: Filters.Filter): string {
    var clause := "(" + f.name + " " + Filters.GetDescription(f.op) + " \"" + f.value + "\")";
    if f.negation then "(!" + clause + ")" else clause
  }

  function ReadFormattedAll(filters: seq<Filters.Filter>): (r: seq<string>)
    ensures |r| == |filters|
    decreases |filters|
  {
    if filters == [] then [] else [ReadFormatted(filters[0])] + ReadFormattedAll(filters[1..])
  }

  /** The filter expression the daemon reads: the clauses joined by AND in
      one more pair of parentheses. */
  function Expression(clauses: seq<string>): string {
    "(" + Join(" AND ", clauses) + ")"
  }

  function WindowArgs(start: Int32, end: Int32): seq<Arg> {
    if start > -1 then [Bare("window"), Bare(IntToString(start) + ":" + IntToString(end))] else []
  }

  lemma WindowArgsWellFormed(start: Int32, end: Int32)
    ensures forall k :: 0 <= k < |WindowArgs(start, end)| ==> WellFormed(WindowArgs(start, end)[k])
  {
    var a, b := IntToString(start), IntToString(end);
    IntIsBareWord(start);
    IntIsBareWord(end);
    var w := a + ":" + b;
    assert forall k :: 0 <= k < |w| ==> w[k] != ' ' by {
      forall k | 0 <= k < |w| ensures w[k] != ' ' {
        if k < |a| { assert w[k] == a[k]; }
        else if k > |a| { assert w[k] == b[k - |a| - 1]; }
      }
    }
    assert w[0] == a[0];
  }

  lemma {:induction false} TagClausesEscaped(kind: FilterCommandKind, pairs: seq<(string, string)>)
    requires forall k :: 0 <= k < |pairs| ==> PlainText(pairs[k].0)
    ensures TagClauses(kind, pairs) == EscapedAll(LiteralClauses(kind, pairs), QuoteSpecials)
    decreases |pairs|
  {
    if pairs != [] {
      TagClauseEscaped(kind, pairs[0].0, pairs[0].1);
      TagClausesEscaped(kind, pairs[1..]);
    }
  }

  /** One tag/value clause as written is the protocol quoting of the clause
      the daemon reads. */
  lemma TagClauseEscaped(kind: FilterCommandKind, tag: string, value: string)
    requires PlainText(tag)
    ensures TagClause(kind, tag, value) == Escaped(LiteralClause(kind, tag, value), QuoteSpecials)
  {
    EscapeIsTwoLayers(value);
    var head := "(" + tag + " " + Operand(kind) + " ";
    EscapedPlain(head, QuoteSpecials);
    EscapedPlain(")", QuoteSpecials);
    EscapedAppend(head, FilterLiteral(value), QuoteSpecials);
    EscapedAppend(head + FilterLiteral(value), ")", QuoteSpecials);
  }

  lemma ClauseEscaped(head: string, value: string)
    requires PlainText(head) && PlainText(value)
    ensures Escaped(head + "\"" + value + "\")", QuoteSpecials) == head + "\\\"" + value + "\\\")"
  {
    EscapedPlain(")", QuoteSpecials);
    EscapedQuotePrefix(")");
    EscapedPlainPrefix(value, "\")");
    EscapedQuotePrefix(value + "\")");
    EscapedPlainPrefix(head, "\"" + (value + "\")"));
    assert head + "\"" + value + "\")" == head + ("\"" + (value + "\")"));
  }

  /** The clause the daemon reads, escaped, is the clause the code writes. */
  lemma ReadClauseEscaped(name: string, token: string, value: string)
    requires PlainText(name) && PlainText(token) && PlainText(value)
    ensures Escaped("(" + name + " " + token + " \"" + value + "\")", QuoteSpecials)
         == "(" + name + " " + token + " " + "\\\"" + value + "\\\"" + ")"
  {
    var head := "(" + name + " " + token + " ";
    assert PlainText(head);
    ClauseEscaped(head, value);
    assert "(" + name + " " + token + " \"" + value + "\")" == head + "\"" + value + "\")";
    assert "(" + name + " " + token + " " + "\\\"" + value + "\\\"" + ")" == head + "\\\"" + value + "\\\")";
  }

  lemma NegationEscaped(x: string, y: string)
    requires Escaped(x, QuoteSpecials) == y
    ensures Escaped("(!" + x + ")", QuoteSpecials) == "(!" + y + ")"
  {
    assert PlainText("(!");
    EscapedPlainPrefix("(!", x + ")");
    EscapedAppend(x, ")", QuoteSpecials);
    EscapedPlain(")", QuoteSpecials);
    assert "(!" + x + ")" == "(!" + (x + ")");
  }

  lemma FormattedEscaped(f: Filters.Filter)
    requires PlainText(f.name) && PlainText(f.value)
    ensures Escaped(ReadFormatted(f), QuoteSpecials) == Filters.GetFormattedCommand(f)
  {
    var token := Filters.GetDescription(f.op);
    assert PlainText(token);
    var x := "(" + f.name + " " + token + " \"" + f.value + "\")";
    var y := "(" + f.name + " " + token + " " + "\\\"" + f.value + "\\\"" + ")";
    ReadClauseEscaped(f.name, token, f.value);
    if f.negation {
      NegationEscaped(x, y);
    }
  }

  lemma {:induction false} FormattedClausesEscaped(filters: seq<Filters.Filter>)
    requires forall k :: 0 <= k < |filters| ==> PlainText(filters[k].name) && PlainText(filters[k].value)
    ensures FormattedClauses(filters) == EscapedAll(ReadFormattedAll(filters), QuoteSpecials)
    decreases |filters|
  {
    if filters != [] {
      FormattedEscaped(filters[0]);
      FormattedClausesEscaped(filters[1..]);
    }
  }

  lemma QuoteExpression(inner: seq<string>)
    ensures Quote(Expression(inner)) == "\"(" + Join(" AND ", EscapedAll(inner, QuoteSpecials)) + ")\""
  {
    assert forall k :: 0 <= k < |" AND "| ==> " AND "[k] !in QuoteSpecials;
    EscapedJoin(" AND ", inner, QuoteSpecials);
    ParensEscaped(Join(" AND ", inner));
    QuoteParens(Join(" AND ", EscapedAll(inner, QuoteSpecials)));
  }

  lemma ParensEscaped(j: string)
    ensures Escaped("(" + j + ")", QuoteSpecials) == "(" + Escaped(j, QuoteSpecials) + ")"
  {
    EscapedPlainPrefix("(", j + ")");
    EscapedAppend(j, ")", QuoteSpecials);
    EscapedPlain(")", QuoteSpecials);
    assert "(" + j + ")" == "(" + (j + ")");
  }

  lemma QuoteParens(e: string)
    ensures "\"" + ("(" + e + ")") + "\"" == "\"(" + e + ")\""
  {
    assert "\"(" == "\"" + "(";
    assert ")\"" == ")" + "\"";
  }

  lemma LineOfCommand(name: string, e: string, start: Int32, end: Int32)
    ensures Line([Bare(name), Quoted(e)] + WindowArgs(start, end)) == name + " " + Quote(e) + WindowSuffix(start, end)
  {
    if start > -1 {
      var se := IntToString(start) + ":" + IntToString(end);
      WindowParts(start, end);
      AppendWindowWords([Bare(name), Quoted(e)], Bare("window"), Bare(se));
      LineWithWindow(name, e, se);
    } else {
      assert [Bare(name), Quoted(e)] + WindowArgs(start, end) == [Bare(name), Quoted(e)];
      LineOfTwo(Bare(name), Quoted(e));
    }
  }

  lemma WindowParts(start: Int32, end: Int32)
    requires start > -1
    ensures WindowArgs(start, end) == [Bare("window"), Bare(IntToString(start) + ":" + IntToString(end))]
    ensures WindowSuffix(start, end) == " window " + (IntToString(start) + ":" + IntToString(end))
  {
  }

  /** The two window words follow the name and the expression. */
  lemma AppendWindowWords(xs: seq<Arg>, y: Arg, z: Arg)
    requires |xs| == 2
    ensures xs + [y, z] == [xs[0], xs[1], y, z]
  {
  }

  lemma LineWithWindow(name: string, e: string, se: string)
    ensures Line([Bare(name), Quoted(e), Bare("window"), Bare(se)]) == name + " " + Quote(e) + (" window " + se)
  {
    LineOfFour(Bare(name), Quoted(e), Bare("window"), Bare(se));
    var q := Quote(e);
    assert name + " " + q + " " + "window" + " " + se == name + " " + q + (" " + "window" + " " + se);
  }

  /** When the clauses are the protocol-level escaping of `inner`, the command
      is the line of its name, the quoted expression and the window. */
  lemma SerializeIsLine(cmd: FilterCommand, inner: seq<string>)
    requires Clauses(cmd) == EscapedAll(inner, QuoteSpecials)
    ensures Serialize(cmd)
         == Line([Bare(CommandName(cmd.kind)), Quoted(Expression(inner))] + WindowArgs(cmd.start, cmd.end))
  {
    QuoteExpression(inner);
    LineOfCommand(CommandName(cmd.kind), Expression(inner), cmd.start, cmd.end);
  }

  function WindowTexts(start: Int32, end: Int32): seq<string> {
    if start > -1 then ["window", IntToString(start) + ":" + IntToString(end)] else []
  }

  lemma CommandArgs(name: string, e: string, start: Int32, end: Int32)
    requires IsBareWord(name)
    ensures var args := [Bare(name), Quoted(e)] + WindowArgs(start, end);
      && (forall k :: 0 <= k < |args| ==> WellFormed(args[k]))
      && Texts(args) == [name, e] + WindowTexts(start, end)
  {
    WindowArgsWellFormed(start, end);
    var w := WindowArgs(start, end);
    var args := [Bare(name), Quoted(e)] + w;
    forall k | 0 <= k < |args| ensures WellFormed(args[k]) {
      if k >= 2 { assert args[k] == w[k - 2]; }
    }
    if start > -1 {
      var se := IntToString(start) + ":" + IntToString(end);
      assert args == [Bare(name), Quoted(e), Bare("window"), Bare(se)];
      assert Texts(args) == [name] + Texts(args[1..]);
      assert Texts(args[1..]) == [e] + Texts(args[2..]);
      assert Texts(args[2..]) == ["window"] + Texts(args[3..]);
    } else {
      assert args == [Bare(name), Quoted(e)];
      assert Texts(args) == [name] + Texts(args[1..]);
    }
  }

  lemma ReadLine(cmd: FilterCommand, inner: seq<string>)
    requires Clauses(cmd) == EscapedAll(inner, QuoteSpecials)
    ensures Tokenize(Serialize(cmd))
         == Some([CommandName(cmd.kind), Expression(inner)] + WindowTexts(cmd.start, cmd.end))
  {
    var name := CommandName(cmd.kind);
    SerializeIsLine(cmd, inner);
    CommandArgs(name, Expression(inner), cmd.start, cmd.end);
    LineReadsBack(Serialize(cmd), [Bare(name), Quoted(Expression(inner))] + WindowArgs(cmd.start, cmd.end),
                  [name, Expression(inner)] + WindowTexts(cmd.start, cmd.end));
  }

  /** A tag/value command reaches the daemon as its name, one argument holding
      the filter expression with every value a filter-syntax literal, clauses
      in list order, and the window words when the start is not negative. */
  lemma TagCommandReadsBack(cmd: FilterCommand)
    requires cmd.criteria.TagValues?
    requires forall k :: 0 <= k < |cmd.criteria.pairs| ==> PlainText(cmd.criteria.pairs[k].0)
    ensures Tokenize(Serialize(cmd))
         == Some([CommandName(cmd.kind), Expression(LiteralClauses(cmd.kind, cmd.criteria.pairs))]
                 + WindowTexts(cmd.start, cmd.end))
  {
    TagClausesEscaped(cmd.kind, cmd.criteria.pairs);
    ReadLine(cmd, LiteralClauses(cmd.kind, cmd.criteria.pairs));
  }

  /** A filter-list command reaches the daemon as its name and the expression
      `((Name op "Value") AND ...)`, when no name or value holds a backslash
      or a double quote. */
  lemma FilterCommandReadsBack(cmd: FilterCommand)
    requires cmd.criteria.FilterList?
    requires forall k :: 0 <= k < |cmd.criteria.filters| ==>
      PlainText(cmd.criteria.filters[k].name) && PlainText(cmd.criteria.filters[k].value)
    ensures Tokenize(Serialize(cmd))
         == Some([CommandName(cmd.kind), Expression(ReadFormattedAll(cmd.criteria.filters))]
                 + WindowTexts(cmd.start, cmd.end))
  {
    FormattedClausesEscaped(cmd.criteria.filters);
    ReadLine(cmd, ReadFormattedAll(cmd.criteria.filters));
  }

  lemma EscapeChainPlain(s: string)
    requires '\\' !in s && '\'' !in s && '"' !in s
    ensures EscapeChain(s) == s
  {
    ReplaceCharAbsent(s, '\\', "\\\\\\\\");
    ReplaceCharAbsent(s, '\'', "\\\\'");
    ReplaceCharAbsent(s, '"', "\\\\\\\"");
  }

  /** The example of the escape's documentation: an artist named
      `foo'bar"`. */
  lemma DocumentedEscape(a: string, b: string, c: string, d: string)
    requires a == "foo" && b == "'" && c == "bar" && d == "\""
    ensures EscapeChain(a + b + c + d) == "foo\\\\'bar\\\\\\\""
  {
    ChainOfFour(a, b, c, d);
    EscapeChainChar('\'');
    EscapeChainChar('"');
    EscapeChainPlain(a);
    EscapeChainPlain(c);
    EscapedExampleText(a, EscapeOne('\''), c, EscapeOne('"'));
  }

  lemma DocumentedValue(a: string, b: string, c: string, d: string)
    requires a == "foo" && b == "'" && c == "bar" && d == "\""
    ensures a + b + c + d == "foo'bar\""
  {
  }

  lemma ChainOfFour(a: string, b: string, c: string, d: string)
    ensures EscapeChain(a + b + c + d) == EscapeChain(a) + EscapeChain(b) + EscapeChain(c) + EscapeChain(d)
  {
    EscapeChainAppend(a + b + c, d);
    EscapeChainAppend(a + b, c);
    EscapeChainAppend(a, b);
  }

  /** The escaped pieces of `foo'bar"` spell `foo\\'bar\\\"`. */
  lemma EscapedExampleText(a: string, b: string, c: string, d: string)
    requires a == "foo" && b == "\\\\'" && c == "bar" && d == "\\\\\\\""
    ensures a + b + c + d == "foo\\\\'bar\\\\\\\""
  {
  }

  /** The line for that example; the daemon reads the expression
      `((Artist == "foo\'bar\""))`, the documented one in one more pair of
      parentheses. */
  lemma DocumentedExample(v: string)
    requires v == "foo'bar\""
    ensures Serialize(FromTag(Find, "Artist", v))
         == "find \"((Artist == \\\"foo\\\\'bar\\\\\\\"\\\"))\""
  {
    var cmd := FromTag(Find, "Artist", v);
    DocumentedValue("foo", "'", "bar", "\"");
    DocumentedEscape("foo", "'", "bar", "\"");
    var e := EscapeChain(v);
    assert Clauses(cmd) == [TagClause(Find, "Artist", v)];
    assert Join(" AND ", Clauses(cmd)) == TagClause(Find, "Artist", v);
    assert WindowSuffix(-1, -1) == "";
    assert Serialize(cmd) == "find" + " \"(" + ("(" + "Artist" + " " + "==" + " " + ("\\\"" + e + "\\\"") + ")") + ")\"";
    ExampleLineText("find", "Artist", "==", e);
  }

  /** The pieces of the documented example line spell that line. */
  lemma ExampleLineText(name: string, tag: string, op: string, e: string)
    requires name == "find" && tag == "Artist" && op == "==" && e == "foo\\\\'bar\\\\\\\""
    ensures name + " \"(" + ("(" + tag + " " + op + " " + ("\\\"" + e + "\\\"") + ")") + ")\""
         == "find \"((Artist == \\\"foo\\\\'bar\\\\\\\"\\\"))\""
  {
    var head := name + " \"(" + "(" + tag + " " + op + " ";
    var tail := "\\\"" + e + "\\\"" + ")" + ")\"";
    assert name + " \"(" + ("(" + tag + " " + op + " " + ("\\\"" + e + "\\\"") + ")") + ")\"" == head + tail;
    ExampleLineHead(name, tag, op);
    ExampleLineTail(e);
    ExampleLineJoin(head, tail);
  }

  /** The example line up to its escaped value. */
  lemma ExampleLineHead(name: string, tag: string, op: string)
    requires name == "find" && tag == "Artist" && op == "=="
    ensures name + " \"(" + "(" + tag + " " + op + " " == "find \"((Artist == "
  {
  }

  /** The example line from its escaped value on. */
  lemma ExampleLineTail(e: string)
    requires e == "foo\\\\'bar\\\\\\\""
    ensures "\\\"" + e + "\\\"" + ")" + ")\"" == "\\\"foo\\\\'bar\\\\\\\"\\\"))\""
  {
  }

  /** The head and the tail of the example line make the whole line. */
  lemma ExampleLineJoin(head: string, tail: string)
    requires head == "find \"((Artist == "
    requires tail == "\\\"foo\\\\'bar\\\\\\\"\\\"))\""
    ensures head + tail == "find \"((Artist == \\\"foo\\\\'bar\\\\\\\"\\\"))\""
  {
  }

  /** An empty list of clauses gives `<name> "()"`. */
  lemma EmptyCriteria(kind: FilterCommandKind)
    ensures Serialize(FromTagValues(kind, [])) == CommandName(kind) + " \"()\""
    ensures Serialize(FromFilters(kind, [])) == CommandName(kind) + " \"()\""
  {
  }

  /** The window changes only the end of the line: ` window <start>:<end>`
      is appended exactly when the start is not negative, with the end as
      given, even -1. */
  lemma WindowOnlyAppends(cmd: FilterCommand)
    ensures Serialize(cmd) == Serialize(cmd.(start := -1)) + WindowSuffix(cmd.start, cmd.end)
  {
  }

  /** The window text: present iff the start is not negative, with the end
      written as given even when it is negative. */
  lemma WindowText(start: Int32, end: Int32)
    ensures start > -1 ==> WindowSuffix(start, end) == " window " + IntToString(start) + ":" + IntToString(end)
    ensures start <= -1 ==> WindowSuffix(start, end) == ""
    ensures WindowSuffix(0, -1) == " window 0:-1"
  {
    assert IntToString(0) == "0";
    assert IntToString(-1) == "-1";
  }

  /** The text of a filter clause up to its value's opening quote,
      preceded by the expression's opening parenthesis. */
  function OpeningOf(f: Filters.Filter): string {
    "(" + (if f.negation then "(!" else "") + "(" + f.name + " " + Filters.GetDescription(f.op) + " "
  }

  lemma PlainThenQuote(p: string, a: string)
    requires PlainText(p) && PlainText(a)
    ensures Escaped(p + "\"" + a, QuoteSpecials) == p + "\\\"" + a
  {
    EscapedPlain(a, QuoteSpecials);
    EscapedQuotePrefix(a);
    EscapedPlainPrefix(p, "\"" + a);
    assert p + "\"" + a == p + ("\"" + a);
  }

  lemma FormattedWithQuote(f: Filters.Filter, a: string, b: string)
    requires f.value == a + "\"" + b
    ensures "(" + Filters.GetFormattedCommand(f)
         == OpeningOf(f) + "\\\"" + a + "\"" + b + "\\\")" + (if f.negation then ")" else "")
  {
    if f.negation {
      NegatedWithQuote(f, a, b);
    } else {
      PlainWithQuote(f, a, b);
    }
    Unfold(OpeningOf(f), a, b, if f.negation then ")" else "");
  }

  lemma NegatedWithQuote(f: Filters.Filter, a: string, b: string)
    requires f.value == a + "\"" + b && f.negation
    ensures "(" + Filters.GetFormattedCommand(f) == OpeningOf(f) + ("\\\"" + a + "\"" + b + "\\\")") + ")"
  {
    var head := "(" + f.name + " " + Filters.GetDescription(f.op) + " ";
    ClauseWithQuote(f.name, Filters.GetDescription(f.op), a, b);
    assert OpeningOf(f) == "(" + "(!" + head;
    WrapNegated(head, "\\\"" + a + "\"" + b + "\\\")");
  }

  lemma PlainWithQuote(f: Filters.Filter, a: string, b: string)
    requires f.value == a + "\"" + b && !f.negation
    ensures "(" + Filters.GetFormattedCommand(f) == OpeningOf(f) + ("\\\"" + a + "\"" + b + "\\\")") + ""
  {
    var head := "(" + f.name + " " + Filters.GetDescription(f.op) + " ";
    ClauseWithQuote(f.name, Filters.GetDescription(f.op), a, b);
    assert OpeningOf(f) == "(" + head;
  }

  lemma ClauseWithQuote(name: string, token: string, a: string, b: string)
    ensures "(" + name + " " + token + " " + "\\\"" + (a + "\"" + b) + "\\\"" + ")"
         == ("(" + name + " " + token + " ") + ("\\\"" + a + "\"" + b + "\\\")")
  {
    assert "\\\"" + ")" == "\\\")";
  }

  lemma WrapNegated(head: string, mid: string)
    ensures "(" + ("(!" + (head + mid) + ")") == ("(" + "(!" + head) + mid + ")"
  {
  }

  lemma Unfold(opening: string, a: string, b: string, tn: string)
    ensures opening + ("\\\"" + a + "\"" + b + "\\\")") + tn == opening + "\\\"" + a + "\"" + b + "\\\")" + tn
  {
  }

  lemma UnescapedQuoteSplits(f: Filters.Filter, a: string, b: string)
    requires f.value == a + "\"" + b
    requires PlainText(f.name) && PlainText(a)
    ensures "(" + Filters.GetFormattedCommand(f)
         == Escaped(OpeningOf(f) + "\"" + a, QuoteSpecials) + "\"" + b + "\\\")" + (if f.negation then ")" else "")
  {
    assert PlainText(OpeningOf(f));
    PlainThenQuote(OpeningOf(f), a);
    FormattedWithQuote(f, a, b);
  }

  lemma Regroup(name: string, x: string, e: string, b: string, c: string, w: string)
    requires x == e + "\"" + b + c
    requires c != [] && c[0] == '\\'
    ensures name + " \"" + x + ")\"" + w == name + " \"" + e + "\"" + (b + c + ")\"" + w)
    ensures b == [] || b[0] != ' ' ==> (b + c + ")\"" + w) != [] && (b + c + ")\"" + w)[0] != ' '
  {
  }

  /** A command with one filter and no other clause. */
  lemma OneFilterLine(kind: FilterCommandKind, f: Filters.Filter, start: Int32, end: Int32)
    ensures Serialize(FromFilter(kind, f, start, end))
         == CommandName(kind) + " \"" + ("(" + Filters.GetFormattedCommand(f)) + ")\"" + WindowSuffix(start, end)
  {
    var cmd := FromFilter(kind, f, start, end);
    var g := Filters.GetFormattedCommand(f);
    assert Clauses(cmd) == [g] by {
      assert FormattedClauses([f]) == [g] + FormattedClauses([]);
    }
    OneClauseLine(cmd, g);
  }

  lemma OneClauseLine(cmd: FilterCommand, g: string)
    requires Clauses(cmd) == [g]
    ensures Serialize(cmd)
         == CommandName(cmd.kind) + " \"" + ("(" + g) + ")\"" + WindowSuffix(cmd.start, cmd.end)
  {
    assert Join(" AND ", [g]) == g;
    OpenQuoteParen(CommandName(cmd.kind), g, ")\"" + WindowSuffix(cmd.start, cmd.end));
  }

  lemma OpenQuoteParen(name: string, g: string, tail: string)
    ensures name + " \"(" + g + tail == name + " \"" + ("(" + g) + tail
  {
    assert " \"(" == " \"" + "(";
  }

  /** A filter value is not escaped: a double quote in it (followed by
      anything but a space) closes the quoted argument early, and the line
      cannot be read. */
  lemma UnescapedQuoteBreaksLine(kind: FilterCommandKind, f: Filters.Filter, a: string, b: string, start: Int32, end: Int32)
    requires f.value == a + "\"" + b
    requires PlainText(f.name) && PlainText(a)
    requires b == [] || b[0] != ' '
    ensures Tokenize(Serialize(FromFilter(kind, f, start, end))) == None
  {
    var name := CommandName(kind);
    var w := WindowSuffix(start, end);
    var y := OpeningOf(f) + "\"" + a;
    var c := "\\\")" + (if f.negation then ")" else "");
    OneFilterLine(kind, f, start, end);
    UnescapedQuoteSplits(f, a, b);
    Regroup(name, "(" + Filters.GetFormattedCommand(f), Escaped(y, QuoteSpecials), b, c, w);
    QuoteClosedEarly(name, y, b + c + ")\"" + w);
  }
}

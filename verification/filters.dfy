/** The filter compiler: the operators of the protocol's filter syntax, the
    five kinds of filter with the operators each accepts, and the rendering of
    one filter as a parenthesised filter expression.

    The repository carries this code twice, identically (the older copy in
    Commands/Database/FindAndSearchCommands.cs, the newer one in
    Types/IFilter.cs and Types/Filters/); it is modelled once here. */
module Filters {
  import opened Wrappers
  import opened Text

  /** Operators available for filters in the protocol. */
  datatype FilterOperator = Equal | Different | Contains | Mask | None

  /** The token of an operator in a filter expression (its `Description`). */
  function GetDescription(op: FilterOperator): (token: string)
    ensures ' ' !in token
    ensures token == [] <==> op == FilterOperator.None
  {
    match op
    case Equal => "=="
    case Different => "!="
    case Contains => "contains"
    case Mask => "=~"
    case None => ""
  }

  /** Reads an operator token back. */
  function ParseOperator(token: string): Option<FilterOperator> {
    if token == "==" then Some(Equal)
    else if token == "!=" then Some(Different)
    else if token == "contains" then Some(Contains)
    else if token == "=~" then Some(Mask)
    else if token == "" then Some(FilterOperator.None)
    else Option.None
  }

  /** Each operator's token reads back as that operator, so no two operators
      share a token. */
  lemma OperatorTokenRoundTrip(op: FilterOperator)
    ensures ParseOperator(GetDescription(op)) == Some(op)
  {
  }

  lemma OperatorTokensDistinct(a: FilterOperator, b: FilterOperator)
    ensures GetDescription(a) == GetDescription(b) ==> a == b
  {
    OperatorTokenRoundTrip(a);
    OperatorTokenRoundTrip(b);
  }

  /** The fixed operator-to-token map. */
  lemma OperatorTokens()
    ensures GetDescription(Equal) == "=="
    ensures GetDescription(Different) == "!="
    ensures GetDescription(Contains) == "contains"
    ensures GetDescription(Mask) == "=~"
    ensures GetDescription(FilterOperator.None) == ""
  {
  }

  // ---------------------------------------------------------------------------
  // Filters

  /** The fields of a filter: the name of what is tested, the operator, the
      value to test against, and whether the test is negated. */
  datatype Filter = Filter(name: string, op: FilterOperator, value: string, negation: bool)

  /** The constructor of the abstract filter: stores its arguments. */
  function NewFilter(name: string, op: FilterOperator, value: string, negation: bool := false): (f: Filter)
    ensures f.name == name && f.op == op && f.value == value && f.negation == negation
  {
    Filter(name, op, value, negation)
  }

  /** The `ArgumentException` a filter constructor throws: the kind of filter
      and the operators it would have accepted. */
  datatype ArgumentError = OperatorNotCompatible(kind: string, allowed: seq<FilterOperator>)

  /** Filter on the file name: only `Equal`. */
  function FilterFile(value: string, op: FilterOperator, negation: bool := false): (r: Result<Filter, ArgumentError>)
    ensures r.Success? <==> op == Equal
    ensures r.Success? ==> r.value == NewFilter("file", op, value, negation)
    ensures r.Failure? ==> r.error == OperatorNotCompatible("File", [Equal])
  {
    if op != Equal then Failure(OperatorNotCompatible("File", [Equal]))
    else Success(NewFilter("file", op, value, negation))
  }

  /** Filter on a tag, named by the tag's value: `Equal`, `Different` or
      `Contains`. */
  function FilterTag(tag: string, value: string, op: FilterOperator, negation: bool := false): (r: Result<Filter, ArgumentError>)
    ensures r.Success? <==> op in {Equal, Different, Contains}
    ensures r.Success? ==> r.value == NewFilter(tag, op, value, negation)
    ensures r.Failure? ==> r.error == OperatorNotCompatible("TAG", [Equal, Different, Contains])
  {
    if op != Equal && op != Different && op != Contains then
      Failure(OperatorNotCompatible("TAG", [Equal, Different, Contains]))
    else Success(NewFilter(tag, op, value, negation))
  }

  /** Restricts the search to a directory: only `None`. */
  function FilterBase(value: string, op: FilterOperator, negation: bool := false): (r: Result<Filter, ArgumentError>)
    ensures r.Success? <==> op == FilterOperator.None
    ensures r.Success? ==> r.value == NewFilter("base", op, value, negation)
    ensures r.Failure? ==> r.error == OperatorNotCompatible("base", [FilterOperator.None])
  {
    if op != FilterOperator.None then Failure(OperatorNotCompatible("base", [FilterOperator.None]))
    else Success(NewFilter("base", op, value, negation))
  }

  /** Filter on the modification time: only `None`. */
  function FilterModifiedSince(value: string, op: FilterOperator, negation: bool := false): (r: Result<Filter, ArgumentError>)
    ensures r.Success? <==> op == FilterOperator.None
    ensures r.Success? ==> r.value == NewFilter("modified-since", op, value, negation)
    ensures r.Failure? ==> r.error == OperatorNotCompatible("ModifiedSince", [FilterOperator.None])
  {
    if op != FilterOperator.None then Failure(OperatorNotCompatible("ModifiedSince", [FilterOperator.None]))
    else Success(NewFilter("modified-since", op, value, negation))
  }

  /** Filter on the audio format: `Equal` or `Mask`. */
  function FilterAudioFormat(value: string, op: FilterOperator, negation: bool := false): (r: Result<Filter, ArgumentError>)
    ensures r.Success? <==> op in {Equal, Mask}
    ensures r.Success? ==> r.value == NewFilter("AudioFormat", op, value, negation)
    ensures r.Failure? ==> r.error == OperatorNotCompatible("AudioFormat", [Equal, Mask])
  {
    if op != Equal && op != Mask then Failure(OperatorNotCompatible("AudioFormat", [Equal, Mask]))
    else Success(NewFilter("AudioFormat", op, value, negation))
  }

  /** Whether a constructor accepts its arguments depends on the operator
      alone, never on the value or the negation; and every operator is
      accepted by at least one kind, `None` only by `base` and
      `modified-since`. */
  lemma ValidationDependsOnOperatorOnly(tag: string, v1: string, v2: string, n1: bool, n2: bool, op: FilterOperator)
    ensures FilterFile(v1, op, n1).Success? == FilterFile(v2, op, n2).Success?
    ensures FilterTag(tag, v1, op, n1).Success? == FilterTag(tag, v2, op, n2).Success?
    ensures FilterBase(v1, op, n1).Success? == FilterBase(v2, op, n2).Success?
    ensures FilterModifiedSince(v1, op, n1).Success? == FilterModifiedSince(v2, op, n2).Success?
    ensures FilterAudioFormat(v1, op, n1).Success? == FilterAudioFormat(v2, op, n2).Success?
    ensures FilterTag(tag, v1, op, n1).Success? || FilterAudioFormat(v1, op, n1).Success?
         || FilterBase(v1, op, n1).Success?
    ensures FilterBase(v1, op, n1).Success? == FilterModifiedSince(v1, op, n1).Success?
    ensures op == FilterOperator.None ==> !FilterTag(tag, v1, op, n1).Success? && !FilterAudioFormat(v1, op, n1).Success?
  {
  }

  // ---------------------------------------------------------------------------
  // Rendering

  /** The filter expression of one filter: `(Name op \"Value\")`, with the
      value between escaped double quotes and not itself escaped, wrapped in
      `(!` and `)` when negated. */
  function GetFormattedCommand(f: Filter): (s: string)
    ensures |s| >= 2 && s[0] == '(' && s[|s| - 1] == ')'
    ensures var k := (if f.negation then 2 else 0) + |f.name| + |GetDescription(f.op)| + 5;
      k + |f.value| <= |s| && s[k..k + |f.value|] == f.value
  {
    var clause := "(" + f.name + " " + GetDescription(f.op) + " " + "\\\"" + f.value + "\\\"" + ")";
    if f.negation then "(!" + clause + ")" else clause
  }

  /** A negated filter renders as `(!` + the filter without negation + `)`. */
  lemma NegationWraps(f: Filter)
    ensures GetFormattedCommand(f.(negation := true))
         == "(!" + GetFormattedCommand(f.(negation := false)) + ")"
    ensures !f.negation ==> GetFormattedCommand(f) == GetFormattedCommand(f.(negation := false))
  {
  }

  /** With the operator `None` there are two spaces between the name and the
      opening quote of the value. */
  lemma NoneLeavesTwoSpaces(f: Filter)
    requires f.op == FilterOperator.None
    ensures var k := (if f.negation then 2 else 0) + 1 + |f.name|;
      GetFormattedCommand(f)[k..k + 4] == "  \\\""
  {
  }

  // ---------------------------------------------------------------------------
  // Reading a filter expression back

  /** Reads `(Name op \"Value\")` back into its name, operator and value. */
  function ParseClause(c: string): Option<(string, FilterOperator, string)> {
    if |c| < 4 || c[0] != '(' || c[|c| - 3..] != "\\\")" then Option.None
    else ParseBody(c[1..|c| - 3])
  }

  /** `Name op \"Value`: the name up to the first space, then the rest. */
  function ParseBody(body: string): Option<(string, FilterOperator, string)> {
    var i := IndexOf(body, ' ');
    if i == |body| then Option.None
    else
      match ParseOperatorValue(body[i + 1..])
      case None => Option.None
      case Some((op, value)) => Some((body[..i], op, value))
  }

  /** `op \"Value`: the operator token up to the next space, then the value
      after its escaped opening quote. */
  function ParseOperatorValue(rest: string): Option<(FilterOperator, string)> {
    var j := IndexOf(rest, ' ');
    if j == |rest| then Option.None
    else
      var tail := rest[j + 1..];
      if |tail| < 2 || tail[..2] != "\\\"" then Option.None
      else match ParseOperator(rest[..j])
        case None => Option.None
        case Some(op) => Some((op, tail[2..]))
  }

  /** Reads a rendered filter back; a leading `(!` marks the negation. */
  function ParseFormatted(s: string): Option<Filter> {
    if |s| >= 3 && s[..2] == "(!" && s[|s| - 1] == ')' then
      match ParseClause(s[2..|s| - 1])
      case None => Option.None
      case Some((n, op, v)) => Some(Filter(n, op, v, true))
    else
      match ParseClause(s)
      case None => Option.None
      case Some((n, op, v)) => Some(Filter(n, op, v, false))
  }

  /** A name that can be read back: no space, and not starting with `!`. */
  predicate PlainName(name: string) {
    ' ' !in name && (name == [] || name[0] != '!')
  }

  lemma ParseClauseOf(name: string, op: FilterOperator, value: string)
    requires ' ' !in name
    ensures ParseClause("(" + name + " " + GetDescription(op) + " " + "\\\"" + value + "\\\"" + ")")
         == Some((name, op, value))
  {
    var rest := GetDescription(op) + " " + "\\\"" + value;
    ClauseParts(name, GetDescription(op), value);
    ParseFrame(name + " " + rest);
    ParseOperatorValueOf(op, value);
    ParseBodyOf(name, rest);
  }

  lemma ClauseParts(name: string, token: string, value: string)
    ensures "(" + name + " " + token + " " + "\\\"" + value + "\\\"" + ")"
         == "(" + (name + " " + (token + " " + "\\\"" + value)) + "\\\")"
  {
    assert "\\\"" + ")" == "\\\")";
  }

  lemma ParseFrame(body: string)
    ensures ParseClause("(" + body + "\\\")") == ParseBody(body)
  {
    var c := "(" + body + "\\\")";
    assert c[1..|c| - 3] == body;
    assert c[|c| - 3..] == "\\\")";
  }

  lemma ParseBodyOf(name: string, rest: string)
    requires ' ' !in name
    ensures ParseBody(name + " " + rest)
         == match ParseOperatorValue(rest)
            case None => Option.None
            case Some((op, value)) => Some((name, op, value))
  {
    var body := name + [' '] + rest;
    assert body == name + " " + rest;
    IndexOfAfter(name, ' ', rest);
    assert body[..|name|] == name;
    assert body[|name| + 1..] == rest;
  }

  lemma ParseOperatorValueOf(op: FilterOperator, value: string)
    ensures ParseOperatorValue(GetDescription(op) + " " + "\\\"" + value) == Some((op, value))
  {
    var token := GetDescription(op);
    var tail := "\\\"" + value;
    var rest := token + [' '] + tail;
    assert rest == token + " " + tail;
    IndexOfAfter(token, ' ', tail);
    assert rest[..|token|] == token;
    assert rest[|token| + 1..] == tail;
    assert tail[..2] == "\\\"" && tail[2..] == value;
    OperatorTokenRoundTrip(op);
    assert rest == GetDescription(op) + " " + "\\\"" + value;
  }

  /** The rendering determines the filter: reading it back gives the filter,
      whenever the name has no space and does not start with `!`. */
  lemma FormattedRoundTrip(f: Filter)
    requires PlainName(f.name)
    ensures ParseFormatted(GetFormattedCommand(f)) == Some(f)
  {
    var clause := "(" + f.name + " " + GetDescription(f.op) + " " + "\\\"" + f.value + "\\\"" + ")";
    ParseClauseOf(f.name, f.op, f.value);
    if f.negation {
      NegatedClauseParses(clause, f.name, f.op, f.value);
    } else {
      assert clause[1] != '!' by {
        if f.name == [] { assert clause[1] == ' '; } else { assert clause[1] == f.name[0]; }
      }
      PlainClauseParses(clause, f.name, f.op, f.value);
    }
  }

  lemma NegatedClauseParses(clause: string, name: string, op: FilterOperator, value: string)
    requires ParseClause(clause) == Some((name, op, value))
    ensures ParseFormatted("(!" + clause + ")") == Some(Filter(name, op, value, true))
  {
    var s := "(!" + clause + ")";
    assert s[..2] == "(!" && s[2..|s| - 1] == clause;
  }

  lemma PlainClauseParses(clause: string, name: string, op: FilterOperator, value: string)
    requires ParseClause(clause) == Some((name, op, value))
    requires |clause| >= 2 && clause[1] != '!'
    ensures ParseFormatted(clause) == Some(Filter(name, op, value, false))
  {
    assert clause[..2] != "(!" by { assert clause[..2][1] == clause[1]; }
  }

  /** Every filter that a constructor accepts can be read back from its
      rendering (for a tag filter, when the tag's name is plain). */
  lemma ValidatedFiltersRoundTrip(tag: string, value: string, op: FilterOperator, negation: bool)
    ensures FilterFile(value, op, negation).Success? ==>
      ParseFormatted(GetFormattedCommand(FilterFile(value, op, negation).value)) == Some(FilterFile(value, op, negation).value)
    ensures PlainName(tag) && FilterTag(tag, value, op, negation).Success? ==>
      ParseFormatted(GetFormattedCommand(FilterTag(tag, value, op, negation).value)) == Some(FilterTag(tag, value, op, negation).value)
    ensures FilterBase(value, op, negation).Success? ==>
      ParseFormatted(GetFormattedCommand(FilterBase(value, op, negation).value)) == Some(FilterBase(value, op, negation).value)
    ensures FilterModifiedSince(value, op, negation).Success? ==>
      ParseFormatted(GetFormattedCommand(FilterModifiedSince(value, op, negation).value)) == Some(FilterModifiedSince(value, op, negation).value)
    ensures FilterAudioFormat(value, op, negation).Success? ==>
      ParseFormatted(GetFormattedCommand(FilterAudioFormat(value, op, negation).value)) == Some(FilterAudioFormat(value, op, negation).value)
  {
    assert PlainName("file") && PlainName("base") && PlainName("modified-since") && PlainName("AudioFormat");
    AcceptedRoundTrip(FilterFile(value, op, negation));
    AcceptedRoundTrip(FilterBase(value, op, negation));
    AcceptedRoundTrip(FilterModifiedSince(value, op, negation));
    AcceptedRoundTrip(FilterAudioFormat(value, op, negation));
    if PlainName(tag) {
      AcceptedRoundTrip(FilterTag(tag, value, op, negation));
    }
  }

  lemma AcceptedRoundTrip(r: Result<Filter, ArgumentError>)
    requires r.Success? ==> PlainName(r.value.name)
    ensures r.Success? ==> ParseFormatted(GetFormattedCommand(r.value)) == Some(r.value)
  {
    if r.Success? {
      FormattedRoundTrip(r.value);
    }
  }
}

/** The `list` command: the values of one tag in the database, optionally
    restricted by one tag/value filter and grouped by another tag. */
module DatabaseList {
  import opened Wrappers
  import opened Text
  import opened Wire

  /** A list command. The filter value is only written when a filter tag is
      given; the short constructors leave it empty. */
  datatype ListCommand = ListCommand(tag: string, filterTag: Option<string>, filterValue: string, groupTag: Option<string>)

  /** The constructor from a tag alone: no filter and no grouping. */
  function ListOf(tag: string): (cmd: ListCommand)
    ensures cmd == ListFiltered(tag, None, "", None)
  {
    ListCommand(tag, None, "", None)
  }

  /** The constructor from a tag and a group tag: no filter. */
  function ListGrouped(tag: string, groupTag: string): (cmd: ListCommand)
    ensures cmd == ListFiltered(tag, None, "", Some(groupTag))
  {
    ListCommand(tag, None, "", Some(groupTag))
  }

  function ListFiltered(tag: string, filterTag: Option<string>, filterValue: string, groupTag: Option<string>): ListCommand {
    ListCommand(tag, filterTag, filterValue, groupTag)
  }

  /** The escape of the filter value: backslashes doubled, then a backslash
      put before each double quote, and the whole in double quotes. */
  function ListEscape(value: string): string {
    "\"" + ReplaceChar(ReplaceChar(value, '\\', "\\\\"), '"', "\\\"") + "\""
  }

  /** `list <tag>`, then `<filter tag> "<value>"` when filtered, then
      `group <tag>` when grouped. */
  function Serialize(cmd: ListCommand): string {
    if cmd.filterTag.None? && cmd.groupTag.None? then
      Join(" ", ["list", cmd.tag])
    else if cmd.filterTag.None? then
      Join(" ", ["list", cmd.tag, "group", cmd.groupTag.value])
    else if cmd.groupTag.None? then
      Join(" ", ["list", cmd.tag, cmd.filterTag.value, ListEscape(cmd.filterValue)])
    else
      Join(" ", ["list", cmd.tag, cmd.filterTag.value, ListEscape(cmd.filterValue), "group", cmd.groupTag.value])
  }

  /** The values of the response, in order; the keys are dropped. */
  function Deserialize(response: Response): (r: seq<string>)
    ensures |r| == |response|
    ensures forall k :: 0 <= k < |r| ==> r[k] == response[k].1
    decreases |response|
  {
    if response == [] then [] else [response[0].1] + Deserialize(response[1..])
  }

  // ---------------------------------------------------------------------------
  // Properties

  /** Both replacements together escape each character on its own. */
  lemma {:induction false} ReplacementsEscape(v: string)
    ensures ReplaceChar(ReplaceChar(v, '\\', "\\\\"), '"', "\\\"") == Escaped(v, QuoteSpecials)
    decreases |v|
  {
    if v != [] {
      var x := v[0];
      assert v == [x] + v[1..];
      ReplaceCharAppend([x], v[1..], '\\', "\\\\");
      ReplaceCharAppend(ReplaceChar([x], '\\', "\\\\"), ReplaceChar(v[1..], '\\', "\\\\"), '"', "\\\"");
      EscapedAppend([x], v[1..], QuoteSpecials);
      ReplacementsEscape(v[1..]);
      if x == '\\' {
        assert ReplaceChar([x], '\\', "\\\\") == "\\\\";
        ReplaceCharAbsent("\\\\", '"', "\\\"");
      } else if x == '"' {
        assert ReplaceChar([x], '\\', "\\\\") == [x];
        assert ReplaceChar([x], '"', "\\\"") == "\\\"";
      } else {
        assert ReplaceChar([x], '\\', "\\\\") == [x];
        assert ReplaceChar([x], '"', "\\\"") == [x];
      }
    }
  }

  /** The escape is the protocol's quoting: the backslash put before a
      double quote is not itself doubled, because backslashes are replaced
      first. */
  lemma ListEscapeIsQuote(v: string)
    ensures ListEscape(v) == Quote(v)
  {
    ReplacementsEscape(v);
  }

  /** The escape adds one character per backslash and per double quote, plus
      the two enclosing quotes. */
  lemma ListEscapeLength(v: string)
    ensures |ListEscape(v)| == |v| + CountIn(v, QuoteSpecials) + 2
  {
    ListEscapeIsQuote(v);
    EscapedLength(v, QuoteSpecials);
  }

  /** The arguments as the daemon reads them. */
  function Tokens(cmd: ListCommand): seq<string> {
    ["list", cmd.tag]
    + (if cmd.filterTag.Some? then [cmd.filterTag.value, cmd.filterValue] else [])
    + (if cmd.groupTag.Some? then ["group", cmd.groupTag.value] else [])
  }

  function Args(cmd: ListCommand): seq<Arg> {
    [Bare("list"), Bare(cmd.tag)]
    + (if cmd.filterTag.Some? then [Bare(cmd.filterTag.value), Quoted(cmd.filterValue)] else [])
    + (if cmd.groupTag.Some? then [Bare("group"), Bare(cmd.groupTag.value)] else [])
  }

  /** Tag names are single words. */
  predicate TagsAreWords(cmd: ListCommand) {
    IsBareWord(cmd.tag)
    && (cmd.filterTag.Some? ==> IsBareWord(cmd.filterTag.value))
    && (cmd.groupTag.Some? ==> IsBareWord(cmd.groupTag.value))
  }

  lemma SerializeIsLine(cmd: ListCommand)
    ensures Serialize(cmd) == Line(Args(cmd))
  {
    var args := Args(cmd);
    var q := ListEscape(cmd.filterValue);
    ListEscapeIsQuote(cmd.filterValue);
    RendersAt(args);
    var parts := ["list", cmd.tag]
      + (if cmd.filterTag.Some? then [cmd.filterTag.value, q] else [])
      + (if cmd.groupTag.Some? then ["group", cmd.groupTag.value] else []);
    assert |parts| == |args|;
    forall k | 0 <= k < |args| ensures Render(args[k]) == parts[k] {
    }
    assert Renders(args) == parts;
    if cmd.filterTag.None? && cmd.groupTag.None? {
      assert parts == ["list", cmd.tag];
    } else if cmd.filterTag.None? {
      assert parts == ["list", cmd.tag, "group", cmd.groupTag.value];
    } else if cmd.groupTag.None? {
      assert parts == ["list", cmd.tag, cmd.filterTag.value, q];
    } else {
      assert parts == ["list", cmd.tag, cmd.filterTag.value, q, "group", cmd.groupTag.value];
    }
  }

  lemma {:induction false} RendersAt(args: seq<Arg>)
    ensures Renders(args) == seq(|args|, k requires 0 <= k < |args| => Render(args[k]))
    decreases |args|
  {
    if args != [] {
      RendersAt(args[1..]);
    }
  }

  lemma {:induction false} TextsAt(args: seq<Arg>)
    ensures Texts(args) == seq(|args|, k requires 0 <= k < |args| => args[k].text)
    decreases |args|
  {
    if args != [] {
      TextsAt(args[1..]);
    }
  }

  /** When the tag names are single words, the line reads back as `list`,
      the tag, the filter tag and the filter value exactly as given (any
      text), and `group` with the group tag. */
  lemma ReadsBack(cmd: ListCommand)
    requires TagsAreWords(cmd)
    ensures Tokenize(Serialize(cmd)) == Some(Tokens(cmd))
  {
    SerializeIsLine(cmd);
    ArgsWellFormed(cmd);
    ArgsTexts(cmd);
    TokenizeWholeLine(Args(cmd));
  }

  lemma ArgsWellFormed(cmd: ListCommand)
    requires TagsAreWords(cmd)
    ensures forall k :: 0 <= k < |Args(cmd)| ==> WellFormed(Args(cmd)[k])
  {
    assert IsBareWord("list") && IsBareWord("group");
  }

  lemma ArgsTexts(cmd: ListCommand)
    ensures Texts(Args(cmd)) == Tokens(cmd)
  {
    var args := Args(cmd);
    TextsAt(args);
    var tokens := Tokens(cmd);
    assert |tokens| == |args|;
    forall k | 0 <= k < |args| ensures args[k].text == tokens[k] {
    }
  }

  /** A filter value is written only with a filter tag: without one, the
      stored value does not reach the line. */
  lemma UnfilteredIgnoresValue(cmd: ListCommand, other: string)
    requires cmd.filterTag.None?
    ensures Serialize(cmd) == Serialize(cmd.(filterValue := other))
  {
  }

  /** The values of a response read in two parts are the two parts' values. */
  lemma {:induction false} DeserializeAppend(a: Response, b: Response)
    ensures Deserialize(a + b) == Deserialize(a) + Deserialize(b)
    decreases |a|
  {
    if a != [] {
      assert (a + b)[1..] == a[1..] + b;
      DeserializeAppend(a[1..], b);
    } else {
      assert a + b == b;
    }
  }
}

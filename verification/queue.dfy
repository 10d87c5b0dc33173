/** The queue commands `add` and `addid`: a song URI in double quotes and an
    optional position in the queue. The two commands differ only in their
    name. */
module Queue {
  import opened Wrappers
  import opened Text
  import opened Wire

  datatype AddKind = Add | AddId

  function CommandName(kind: AddKind): string {
    match kind
    case Add => "add"
    case AddId => "addid"
  }

  /** The stored position is the decimal text of the position argument, or
      empty when none was given. */
  datatype AddCommand = AddCommand(kind: AddKind, uri: string, position: string)

  /** The constructor with a position. */
  function AddAt(kind: AddKind, uri: string, position: Int32): AddCommand {
    AddCommand(kind, uri, IntToString(position))
  }

  /** The constructor without a position. */
  function AddAtEnd(kind: AddKind, uri: string): AddCommand {
    AddCommand(kind, uri, "")
  }

  /** `<name> "<uri>" <position>`, the URI not escaped. */
  function Serialize(cmd: AddCommand): string {
    Join(" ", [CommandName(cmd.kind), "\"" + cmd.uri + "\"", cmd.position])
  }

  // ---------------------------------------------------------------------------
  // Properties

  /** The URI appears verbatim between the two double quotes that follow the
      name and a space. */
  lemma UriVerbatim(cmd: AddCommand)
    ensures var n := |CommandName(cmd.kind)|;
      && |Serialize(cmd)| == n + |cmd.uri| + |cmd.position| + 4
      && Serialize(cmd)[..n + 2] == CommandName(cmd.kind) + " \""
      && Serialize(cmd)[n + 2..n + 2 + |cmd.uri|] == cmd.uri
      && Serialize(cmd)[n + 2 + |cmd.uri|..n + 4 + |cmd.uri|] == "\" "
  {
    JoinOfThree(" ", CommandName(cmd.kind), "\"" + cmd.uri + "\"", cmd.position);
    QuotedBetween(CommandName(cmd.kind), cmd.uri, cmd.position);
  }

  lemma QuotedBetween(name: string, uri: string, position: string)
    ensures var line := name + " " + ("\"" + uri + "\"") + " " + position;
      var n := |name|;
      && |line| == n + |uri| + |position| + 4
      && line[..n + 2] == name + " \""
      && line[n + 2..n + 2 + |uri|] == uri
      && line[n + 2 + |uri|..n + 4 + |uri|] == "\" "
  {
    var line := name + " " + ("\"" + uri + "\"") + " " + position;
    assert line == (name + " \"") + uri + "\" " + position;
  }

  /** Without a position the line ends in the quoted URI and one space. */
  lemma AtEndLine(kind: AddKind, uri: string)
    ensures Serialize(AddAtEnd(kind, uri)) == CommandName(kind) + " \"" + uri + "\" "
  {
    JoinOfThree(" ", CommandName(kind), "\"" + uri + "\"", "");
  }

  /** When the URI has no backslash or double quote, the line without a
      position reads back as the name and the URI: the daemon ignores the
      trailing space. */
  lemma AtEndReadsBack(kind: AddKind, uri: string)
    requires PlainText(uri)
    ensures Tokenize(Serialize(AddAtEnd(kind, uri))) == Some([CommandName(kind), uri])
  {
    var name := CommandName(kind);
    var quoted := "\"" + uri + "\"";
    JoinOfThree(" ", name, quoted, "");
    assert Serialize(AddAtEnd(kind, uri)) == name + " " + quoted + " ";
    QuotePlain(uri);
    ReadsBackTwo(Bare(name), Quoted(uri));
  }

  /** With a position the line is `<name> "<uri>" <decimal position>`, a
      negative position with its sign, and the position text reads back as
      the position. */
  lemma AtPositionLine(kind: AddKind, uri: string, position: Int32)
    ensures Serialize(AddAt(kind, uri, position)) == CommandName(kind) + " \"" + uri + "\" " + IntToString(position)
    ensures ParseInt(IntToString(position)) == Some(position as int)
  {
    JoinOfThree(" ", CommandName(kind), "\"" + uri + "\"", IntToString(position));
    IntToStringRoundTrip(position);
  }

  /** When the URI has no backslash or double quote, the line with a
      position reads back as the name, the URI and the position. */
  lemma AtPositionReadsBack(kind: AddKind, uri: string, position: Int32)
    requires PlainText(uri)
    ensures Tokenize(Serialize(AddAt(kind, uri, position))) == Some([CommandName(kind), uri, IntToString(position)])
  {
    var name := CommandName(kind);
    var p := IntToString(position);
    JoinOfThree(" ", name, "\"" + uri + "\"", p);
    QuotePlain(uri);
    IntIsBareWord(position);
    ReadsBackThree(Bare(name), Quoted(uri), Bare(p));
  }

  /** The URI is not escaped: a double quote in it that is followed by
      anything but a space ends the quoted argument early, and the line cannot
      be read. */
  lemma QuoteInUriBreaksLine(cmd: AddCommand, a: string, b: string)
    requires cmd.uri == a + "\"" + b
    requires PlainText(a)
    requires b == [] || b[0] != ' '
    ensures Tokenize(Serialize(cmd)) == None
  {
    var name := CommandName(cmd.kind);
    var rest := b + "\" " + cmd.position;
    JoinOfThree(" ", name, "\"" + cmd.uri + "\"", cmd.position);
    EscapedPlain(a, QuoteSpecials);
    assert Serialize(cmd) == name + " \"" + a + "\"" + rest;
    QuoteClosedEarly(name, a, rest);
  }
}

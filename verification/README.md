# MpcNET command encoding, modelled in Dafny

MpcNET is a .NET client for the Music Player Daemon (MPD). Each command object
turns its parameters into one line of the MPD text protocol (`Serialize`). Some
also turn the daemon's response into a result (`Deserialize`). The response is
an ordered list of key/value pairs. This project models the encoding layer:

- **The filter compiler.** It has two parts:
  - the operator tokens (`==`, `!=`, `contains`, `=~`, and the empty token of `None`);
  - the five validated filter constructors (`file`, a tag, `base`, `modified-since`, `AudioFormat`).

  It also covers `GetFormattedCommand`, which renders `(Name op \"Value\")`, optionally negated as `(!...)`.
  The repository carries this code twice, once inside
  `FindAndSearchCommands.cs` and once in `Types/IFilter.cs` and
  `Types/Filters/`. The two copies are identical and are modelled once, in
  module `Filters`.
- **`find`, `search` and `searchadd`** (module `Database`). It covers:
  - tag/value clauses with the three-stage `escape`;
  - filter clauses;
  - clauses joined by ` AND `;
  - the optional ` window start:end`.
- **`list`** (module `DatabaseList`): four shapes of line, a one-level escape,
  and the values of the response.
- **`add` and `addid`** (module `Queue`), and **`playlistadd` and
  `playlistdelete`** (module `Playlist`). Each takes a quoted URI or name and an
  optional position or range.
- **`consume` and `getvol`** (module `Playback`).
- **`MpdDirectory`** of the legacy library (module `Directory`). It is a class
  whose name is derived from its path and whose file list only grows.

Modules `Text` and `Wire` hold what the commands are built from.

`Text` holds the .NET string operations that the commands use:
- `string.Join`;
- `Replace` with a one-character pattern;
- `Split` on one character;
- `int.ToString`.

`Wire` holds two reference definitions. Every `Serialize` is proved against them:
- `Escaped` quotes text by putting a backslash before each special character.
- `Tokenize` reads a request line as the daemon splits it into arguments: bare
  words, and double-quoted strings with backslash escapes whose closing quote
  must be followed by a space or the end of the line.

Most commands carry a round-trip lemma: `Tokenize(Serialize(cmd))` is exactly the
list of arguments the command meant to send.

For find/search, the main theorems state what the escaping achieves. The
three chained replacements are exactly two escaping layers, each applied once:
- first, the filter syntax's quoting of the value as a string literal;
- then, the protocol's quoting of the whole expression.

So the daemon reads back the expression `((Tag == "literal"))`, and the filter
parser reads the literal back as the original value.

The escape's doc comment gives the example `find "(Artist == \"foo\\'bar\\\"\")"`.
The code writes one more pair of parentheses around the clauses:
`find "((Artist == \"foo\\'bar\\\"\"))"`. The model follows the code, and
`Database.DocumentedExample` states the line the code produces.

## Model

| member | source | states |
|---|---|---|
| Filters.OperatorTokens | Sources/MpcNET/Types/IFilter.cs:8-35 | The token of each operator: Equal `==`, Different `!=`, Contains `contains`, Mask `=~`, None the empty string |
| Filters.GetDescription | Sources/MpcNET/Types/IFilter.cs:45-62 | A token never contains a space, and it is empty exactly for `None` |
| Filters.OperatorTokensDistinct | Sources/MpcNET/Commands/Database/FindAndSearchCommands.cs:18-45 | Different operators have different tokens |
| Filters.OperatorTokenRoundTrip | Sources/MpcNET/Commands/Database/FindAndSearchCommands.cs:55-72 | Reading a token back gives the operator it was written for |
| Filters.NewFilter | Sources/MpcNET/Types/IFilter.cs:94-100 | The constructor stores name, operator, value and negation unchanged; negation defaults to false |
| Filters.FilterFile | Sources/MpcNET/Types/Filters/FilterFile.cs:14-23 | Succeeds iff the operator is Equal. On success the filter is named `file` and keeps value, operator and negation; otherwise the error names `File` and the allowed operators |
| Filters.FilterTag | Sources/MpcNET/Types/Filters/FilterTag.cs:17-25 | Succeeds iff the operator is Equal, Different or Contains. On success the filter is named after the tag; otherwise the error names `TAG` and the three allowed operators |
| Filters.FilterBase | Sources/MpcNET/Types/Filters/FilterBase.cs:14-23 | Succeeds iff the operator is None. On success the filter is named `base` with the fields as given; otherwise the error names `base` |
| Filters.FilterModifiedSince | Sources/MpcNET/Types/Filters/FilterModifiedSince.cs:14-23 | Succeeds iff the operator is None. On success the filter is named `modified-since`; otherwise the error names `ModifiedSince` |
| Filters.FilterAudioFormat | Sources/MpcNET/Types/Filters/FilterAudioFormat.cs:14-23 | Succeeds iff the operator is Equal or Mask. On success the filter is named `AudioFormat`; otherwise the error names `AudioFormat` and the two allowed operators |
| Filters.ValidationDependsOnOperatorOnly | Sources/MpcNET/Commands/Database/FindAndSearchCommands.cs:144-245 | Whether a constructor succeeds depends on the operator alone, never on value or negation. Every operator is accepted by the tag, audio-format or base filter. `base` and `modified-since` accept the same operators, and `None` is accepted by neither the tag nor the audio-format filter |
| Filters.GetFormattedCommand | Sources/MpcNET/Types/IFilter.cs:118-133 | The text starts with `(` and ends with `)`. The value appears verbatim, unescaped, right after the name, the token and the opening `\"` |
| Filters.NegationWraps | Sources/MpcNET/Types/IFilter.cs:122-130 | A negated filter renders as `(!` + the same filter without negation + `)`, and nothing else differs |
| Filters.NoneLeavesTwoSpaces | Sources/MpcNET/Types/IFilter.cs:125-127 | With operator None there are two spaces between the name and `\"` |
| Filters.ParseClauseOf | Sources/MpcNET/Types/IFilter.cs:125-127 | A clause `(name op \"value\")` reads back as its name, operator and value, for any value |
| Filters.FormattedRoundTrip | Sources/MpcNET/Types/IFilter.cs:118-133 | The rendering reads back as the filter: name, operator, value and negation, when the name is one word not starting with `!` |
| Filters.ValidatedFiltersRoundTrip | Sources/MpcNET/Commands/Database/FindAndSearchCommands.cs:115-130 | Every filter a constructor accepts renders to text that reads back as that filter; for tag filters this needs a one-word tag |
| Database.CommandName | Sources/MpcNET/Commands/Database/FindAndSearchCommands.cs:253-363 | `find`, `search` or `searchadd`; each is a single word, so it reads back as one argument |
| Database.Operand | Sources/MpcNET/Commands/Database/FindAndSearchCommands.cs:253-363 | `==` for find and `contains` for search and searchadd: the tokens of the Equal and Contains filter operators |
| Database.FromTag | Sources/MpcNET/Commands/Database/FindAndSearchCommands.cs:427-434 | The one-pair constructor is the list constructor given a list holding that pair, with the same window |
| Database.FromTagValues | Sources/MpcNET/Commands/Database/FindAndSearchCommands.cs:442-448 | No contract of its own: it stores the pairs in order and the window as given. What the line makes of them is stated by Database.TagCommandReadsBack |
| Database.FromFilter | Sources/MpcNET/Commands/Database/FindAndSearchCommands.cs:456-463 | The one-filter constructor is the list constructor given a list holding that filter, with the same window |
| Database.FromFilters | Sources/MpcNET/Commands/Database/FindAndSearchCommands.cs:471-477 | No contract of its own: it stores the filters in order and the window as given. What the line makes of them is stated by Database.FilterCommandReadsBack |
| Database.TagClauses | Sources/MpcNET/Commands/Database/FindAndSearchCommands.cs:491-493 | One clause per pair, in list order. Database.TagClausesEscaped states what each clause is |
| Database.FormattedClauses | Sources/MpcNET/Commands/Database/FindAndSearchCommands.cs:499-501 | One clause per filter, in list order. Database.FormattedClausesEscaped states what each clause is |
| Database.Clauses | Sources/MpcNET/Commands/Database/FindAndSearchCommands.cs:489-503 | No contract of its own: the clauses of the pairs or of the filters, whichever the command holds. Database.TagCommandReadsBack and Database.FilterCommandReadsBack state what reaches the line |
| Database.WindowSuffix | Sources/MpcNET/Commands/Database/FindAndSearchCommands.cs:505-508 | No contract of its own: ` window start:end` when the start is not negative. Database.WindowText states its text and Database.WindowOnlyAppends its place in the line |
| Database.EscapeChain | Sources/MpcNET/Commands/Database/FindAndSearchCommands.cs:543-545 | No contract of its own: the three chained replacements. What they do is stated by Database.EscapeChainChar and Database.EscapeChainIsTwoLayers |
| Database.Escape | Sources/MpcNET/Commands/Database/FindAndSearchCommands.cs:541-548 | No contract of its own: the chain wrapped in `\"`. Database.EscapeIsTwoLayers states that this is the quoted filter literal |
| Database.TagClause | Sources/MpcNET/Commands/Database/FindAndSearchCommands.cs:492 | No contract of its own: `(tag operand escaped-value)`. Database.TagClausesEscaped states what the daemon reads from it |
| Database.Serialize | Sources/MpcNET/Commands/Database/FindAndSearchCommands.cs:485-511 | No contract of its own: the request line. Database.SerializeIsLine and Database.ReadLine state its arguments and how they read back |
| Database.EscapeChainChar | Sources/MpcNET/Commands/Database/FindAndSearchCommands.cs:543-545 | Per character: `\` becomes four backslashes, `'` becomes `\\'`, `"` becomes `\\\"`, and any other character is unchanged |
| Database.EscapeChainAppend | Sources/MpcNET/Commands/Database/FindAndSearchCommands.cs:543-545 | The replacement chain works character by character, so it distributes over concatenation |
| Database.EscapeChainIsTwoLayers | Sources/MpcNET/Commands/Database/FindAndSearchCommands.cs:543-545 | The three replacements equal the filter-syntax escape (backslash before `\`, `'`, `"`) followed by the protocol escape (backslash before `\`, `"`) |
| Database.EscapeIsTwoLayers | Sources/MpcNET/Commands/Database/FindAndSearchCommands.cs:541-548 | The whole escape is the protocol quoting of the value's filter-syntax string literal |
| Database.FilterLiteralReadsBack | Sources/MpcNET/Commands/Database/FindAndSearchCommands.cs:541-548 | The filter parser reads that literal back as the original value, for any value |
| Database.EscapeChainLength | Sources/MpcNET/Commands/Database/FindAndSearchCommands.cs:543-545 | The chain adds 3 characters per backslash, 2 per single quote and 3 per double quote |
| Database.EscapeLength | Sources/MpcNET/Commands/Database/FindAndSearchCommands.cs:541-548 | The escaped length is the length of v, plus 3 per backslash, 2 per single quote and 3 per double quote, plus 4 |
| Database.TagClausesEscaped | Sources/MpcNET/Commands/Database/FindAndSearchCommands.cs:491-493 | With plain tags, each written clause is the protocol quoting of `(tag operand literal)` |
| Database.FormattedEscaped | Sources/MpcNET/Commands/Database/FindAndSearchCommands.cs:499-501 | With plain name and value, a filter's text is the protocol quoting of `(name op "value")`, negated as `(!...)` |
| Database.FormattedClausesEscaped | Sources/MpcNET/Commands/Database/FindAndSearchCommands.cs:499-501 | The same, for every filter of a list |
| Database.QuoteExpression | Sources/MpcNET/Commands/Database/FindAndSearchCommands.cs:494 | Quoting the expression `(c1 AND c2 ...)` gives `"(` + the quoted clauses joined by ` AND ` + `)"` |
| Database.SerializeIsLine | Sources/MpcNET/Commands/Database/FindAndSearchCommands.cs:485-511 | The line is the command name, the quoted expression and, when the start is not negative, `window` and `start:end` |
| Database.ReadLine | Sources/MpcNET/Commands/Database/FindAndSearchCommands.cs:485-511 | That line reads back as the name, the expression and the window arguments |
| Database.TagCommandReadsBack | Sources/MpcNET/Commands/Database/FindAndSearchCommands.cs:489-495 | With plain tags, the line reads back as the command name, then `((tag op "literal") AND ...)`, then the window. Each literal holds the value exactly, whatever characters it has |
| Database.FilterCommandReadsBack | Sources/MpcNET/Commands/Database/FindAndSearchCommands.cs:497-503 | With plain names and values, the line reads back as the command name, then `((name op "value") AND ...)` in list order, then the window |
| Database.DocumentedEscape | Sources/MpcNET/Commands/Database/FindAndSearchCommands.cs:531-535 | The replacements turn `foo'bar"` into `foo\\'bar\\\"` |
| Database.DocumentedExample | Sources/MpcNET/Commands/Database/FindAndSearchCommands.cs:531-535 | find on Artist with `foo'bar"` gives `find "((Artist == \"foo\\'bar\\\"\"))"` |
| Database.EmptyCriteria | Sources/MpcNET/Commands/Database/FindAndSearchCommands.cs:489-503 | An empty list of pairs or of filters gives `<name> "()"` |
| Database.WindowOnlyAppends | Sources/MpcNET/Commands/Database/FindAndSearchCommands.cs:505-508 | The window only appends: the line equals the line without a window followed by the window text, so the rest of the line does not depend on the window |
| Database.WindowText | Sources/MpcNET/Commands/Database/FindAndSearchCommands.cs:505-508 | ` window start:end` is appended iff start > -1, with the end as given (start 0, end -1 gives ` window 0:-1`); otherwise nothing is appended |
| Database.UnescapedQuoteBreaksLine | Sources/MpcNET/Commands/Database/FindAndSearchCommands.cs:497-503 | A filter value is not escaped. A `"` in it that is not followed by a space closes the quoted argument early, and the line cannot be read |
| DatabaseList.ListOf | Sources/MpcNET/Commands/Database/ListCommand.cs:28-31 | The constructor from a tag alone is the full constructor with no filter and no group |
| DatabaseList.ListGrouped | Sources/MpcNET/Commands/Database/ListCommand.cs:38-42 | The constructor from a tag and a group tag is the full constructor with no filter |
| DatabaseList.ListFiltered | Sources/MpcNET/Commands/Database/ListCommand.cs:51-57 | No contract of its own: it stores the four arguments. DatabaseList.ReadsBack states what reaches the line |
| DatabaseList.ListEscape | Sources/MpcNET/Commands/Database/ListCommand.cs:91 | No contract of its own: the two replacements, then the double quotes. DatabaseList.ListEscapeIsQuote states that this is the protocol quoting |
| DatabaseList.Serialize | Sources/MpcNET/Commands/Database/ListCommand.cs:65-77 | No contract of its own: the four cases. DatabaseList.SerializeIsLine and DatabaseList.ReadsBack state their lines and what reads back |
| DatabaseList.ReplacementsEscape | Sources/MpcNET/Commands/Database/ListCommand.cs:91 | The two replacements put a backslash before each `\` and `"` and leave every other character, `'` included, unchanged |
| DatabaseList.ListEscapeIsQuote | Sources/MpcNET/Commands/Database/ListCommand.cs:91 | The escape is exactly the protocol's quoting: the backslash added before a quote is not doubled |
| DatabaseList.ListEscapeLength | Sources/MpcNET/Commands/Database/ListCommand.cs:91 | The escaped length is the value's length, plus one per backslash and double quote, plus 2 |
| DatabaseList.SerializeIsLine | Sources/MpcNET/Commands/Database/ListCommand.cs:65-77 | The four cases give `list tag`, `list tag group g`, `list tag ftag "v"` and `list tag ftag "v" group g`, as written |
| DatabaseList.ReadsBack | Sources/MpcNET/Commands/Database/ListCommand.cs:65-77 | With one-word tag names, the line reads back as `list`, the tag, the filter tag and the exact filter value, and `group` with the group tag |
| DatabaseList.UnfilteredIgnoresValue | Sources/MpcNET/Commands/Database/ListCommand.cs:67-71 | Without a filter tag the filter value does not reach the line |
| DatabaseList.Deserialize | Sources/MpcNET/Commands/Database/ListCommand.cs:86-89 | The result has as many entries as the response, and entry k is the value of pair k |
| DatabaseList.DeserializeAppend | Sources/MpcNET/Commands/Database/ListCommand.cs:88 | The values of a response read in two parts are the values of the first part, then those of the second |
| Queue.CommandName | Sources/MpcNET/Commands/Queue/AddCommand.cs:49 | No contract of its own: `add`, or `addid` as at AddIdCommand.cs:49. Queue.AtEndReadsBack and Queue.AtPositionReadsBack state that it reads back as the first argument |
| Queue.AddAt | Sources/MpcNET/Commands/Queue/AddCommand.cs:27-31 | No contract of its own: it stores the URI and the decimal text of the position. Queue.AtPositionLine states that the text reads back as the position |
| Queue.AddAtEnd | Sources/MpcNET/Commands/Queue/AddCommand.cs:37-41 | No contract of its own: it stores the URI and an empty position. Queue.AtEndLine states the line it gives |
| Queue.Serialize | Sources/MpcNET/Commands/Queue/AddCommand.cs:49 | No contract of its own: the name, the quoted URI and the position joined by spaces. Queue.UriVerbatim and the read-back lemmas state what it writes |
| Queue.UriVerbatim | Sources/MpcNET/Commands/Queue/AddCommand.cs:49 | For `add` and `addid`, the line is the name, a space, `"`, the URI verbatim, `"`, a space and the position text |
| Queue.AtEndLine | Sources/MpcNET/Commands/Queue/AddCommand.cs:37-49 | Without a position the line is `add "<uri>" ` (or `addid`), with exactly one trailing space |
| Queue.AtPositionLine | Sources/MpcNET/Commands/Queue/AddCommand.cs:27-49 | With a position the line is `add "<uri>" <decimal>`, a negative position keeping its sign, and the decimal text reads back as the position |
| Queue.AtEndReadsBack | Sources/MpcNET/Commands/Queue/AddCommand.cs:37-49 | For `add`, and for `addid` whose lines are the same in AddIdCommand.cs: with a URI free of `\` and `"`, the line without a position reads back as the name and the URI |
| Queue.AtPositionReadsBack | Sources/MpcNET/Commands/Queue/AddCommand.cs:27-49 | For `add` and `addid`, with such a URI, the line with a position reads back as the name, the URI and the position |
| Queue.QuoteInUriBreaksLine | Sources/MpcNET/Commands/Queue/AddCommand.cs:49 | For `add` and `addid`, the URI is not escaped. A `"` in it that is not followed by a space makes the line unreadable |
| Wire.JoinPairs | Sources/MpcNET/Commands/Queue/AddCommand.cs:58-61 | No contract of its own: the rendered pairs joined by `, `. Wire.JoinPairsSnoc and Wire.JoinPairsLength state its shape |
| Wire.JoinPairsSnoc | Sources/MpcNET/Commands/Queue/AddCommand.cs:58-61 | The response rendering of add, addid, playlistadd, playlistdelete and consume: empty for an empty response; each further pair appends `, ` and its rendering, leaving earlier text unchanged |
| Wire.JoinPairsLength | Sources/MpcNET/Commands/Queue/AddCommand.cs:58-61 | For the same five commands, the rendering's length is the sum of the renderings plus 2 per separator |
| Playlist.PlaylistAddAtEnd | Sources/MpcNET/Commands/Playlist/PlaylistAddCommand.cs:25-30 | No contract of its own: it stores name, URI and an empty position. Playlist.AddAtEndLine states the line |
| Playlist.PlaylistAddAt | Sources/MpcNET/Commands/Playlist/PlaylistAddCommand.cs:38-43 | No contract of its own: it stores name, URI and the decimal text of the position. Playlist.AddAtLine states that the text reads back as the position |
| Playlist.SerializeAdd | Sources/MpcNET/Commands/Playlist/PlaylistAddCommand.cs:51 | No contract of its own: the four parts joined by spaces. Playlist.AddAtEndReadsBack and Playlist.AddAtReadsBack state what reads back |
| Playlist.AddAtEndLine | Sources/MpcNET/Commands/Playlist/PlaylistAddCommand.cs:25-51 | Without a position the line is `playlistadd "<name>" "<uri>" `, ending in one space, with name and URI verbatim |
| Playlist.AddAtLine | Sources/MpcNET/Commands/Playlist/PlaylistAddCommand.cs:38-51 | With a position the line ends in its decimal text, which reads back as the position |
| Playlist.AddAtEndReadsBack | Sources/MpcNET/Commands/Playlist/PlaylistAddCommand.cs:51 | With name and URI free of `\` and `"`, the line reads back as `playlistadd`, the name and the URI |
| Playlist.AddAtReadsBack | Sources/MpcNET/Commands/Playlist/PlaylistAddCommand.cs:51 | The same with the position as a fourth argument |
| Playlist.NewPlaylistDelete | Sources/MpcNET/Commands/Playlist/PlaylistDeleteCommand.cs:26-30 | As written, the constructor stores the name and the start, and the end field stays 0 whatever is passed |
| Playlist.EndposDropped | Sources/MpcNET/Commands/Playlist/PlaylistDeleteCommand.cs:17-38 | As written, every end argument (or none) gives the same command and the line `playlistdelete "<name>" <start>:0`, which reads as the range start to 0 |
| Playlist.EndposDroppedReadsBack | Sources/MpcNET/Commands/Playlist/PlaylistDeleteCommand.cs:26-38 | As written, with a plain name, the line reads back as `playlistdelete`, the name and `<start>:0`, whatever end was passed |
| Playlist.DeleteReadsBack | Sources/MpcNET/Commands/Playlist/PlaylistDeleteCommand.cs:38 | Any delete command with a plain name reads back as `playlistdelete`, the name and its range text |
| Playlist.EndposDroppedExample | Sources/MpcNET/Commands/Playlist/PlaylistDeleteCommand.cs:26-38 | Deleting position 5 of `p` gives `playlistdelete "p" 5:0` as written and `playlistdelete "p" 5` as intended |
| Playlist.NewPlaylistDeleteIntended | Sources/MpcNET/Commands/Playlist/PlaylistDeleteCommand.cs:26-30 | The corrected constructor stores the end as given |
| Playlist.Range | Sources/MpcNET/Commands/Playlist/PlaylistDeleteCommand.cs:38 | No contract of its own: `<start>:<end>`, or `<start>` when the end is `int.MinValue`. Playlist.RangeReadsBack and Playlist.RangeIsBareWord state its meaning |
| Playlist.SerializeDelete | Sources/MpcNET/Commands/Playlist/PlaylistDeleteCommand.cs:38 | No contract of its own: the name, the quoted playlist and the range. Playlist.EndposDropped and Playlist.IntendedReadsBack state its lines |
| Playlist.RangeReadsBack | Sources/MpcNET/Commands/Playlist/PlaylistDeleteCommand.cs:38 | The range text reads back as the start, and as the end exactly when the end is not `int.MinValue` |
| Playlist.RangeIsBareWord | Sources/MpcNET/Commands/Playlist/PlaylistDeleteCommand.cs:38 | The range text is a single word |
| Playlist.IntendedLine | Sources/MpcNET/Commands/Playlist/PlaylistDeleteCommand.cs:38 | As intended, the line is `playlistdelete "<name>" <start>` without an end, and `... <start>:<end>` with one |
| Playlist.IntendedReadsBack | Sources/MpcNET/Commands/Playlist/PlaylistDeleteCommand.cs:38 | As intended, with a plain name, the line reads back as the name and a range giving the start and the end exactly as passed |
| Playback.NewConsume | Sources/MpcNET/Commands/Playback/ConsumeCommand.cs:24-27 | No contract of its own: it stores `1` or `0`. Playback.ConsumeReadsBack states that the line reads back as the flag |
| Playback.ConsumeToggle | Sources/MpcNET/Commands/Playback/ConsumeCommand.cs:32-34 | No contract of its own: it stores no state. Playback.ConsumeToggleReadsBack states its line |
| Playback.SerializeConsume | Sources/MpcNET/Commands/Playback/ConsumeCommand.cs:42-50 | No contract of its own: `consume`, then the state when there is one. Playback.ConsumeInjective states that the three commands (on, off, toggle) give different lines |
| Playback.ConsumeReadsBack | Sources/MpcNET/Commands/Playback/ConsumeCommand.cs:24-49 | `true` gives `consume 1` and `false` gives `consume 0`; the line reads back as the state given |
| Playback.ConsumeToggleReadsBack | Sources/MpcNET/Commands/Playback/ConsumeCommand.cs:32-47 | The constructor without arguments gives exactly `consume`, with no trailing space, read back as a request without a state |
| Playback.ConsumeInjective | Sources/MpcNET/Commands/Playback/ConsumeCommand.cs:24-49 | The two states give different lines, and the toggle's bare `consume` differs from both |
| Playback.GetVolumeLine | Sources/MpcNET/Commands/Playback/GetVolumeCommand.cs:32 | The request is the single word `getvol` |
| Playback.SerializeGetVolume | Sources/MpcNET/Commands/Playback/GetVolumeCommand.cs:32 | No contract of its own: the word `getvol`. Playback.GetVolumeLine states that it reads back as that one word |
| Playback.DeserializeGetVolume | Sources/MpcNET/Commands/Playback/GetVolumeCommand.cs:41-49 | No contract of its own: the first value when its key is `volume`. Playback.VolumeFromFirstPair and Playback.OnlyFirstPairCounts state its behaviour |
| Playback.VolumeFromFirstPair | Sources/MpcNET/Commands/Playback/GetVolumeCommand.cs:43-46 | When the first pair's key is `volume`, the result is its value, whatever follows |
| Playback.OnlyFirstPairCounts | Sources/MpcNET/Commands/Playback/GetVolumeCommand.cs:43-48 | An empty response gives `""`. A first key other than `volume` gives `""` even when a later pair is `volume`. What follows the first pair never matters, and a non-empty result is the first pair's value |
| Text.Join | Sources/MpcNET/Commands/Queue/AddCommand.cs:49 | No contract of its own: the parts in order with the separator between neighbours. Text.SplitJoin and Text.JoinSplit relate it to Split |
| Text.ReplaceChar | Sources/MpcNET/Commands/Database/ListCommand.cs:91 | No contract of its own: each occurrence of the character replaced, others kept. DatabaseList.ReplacementsEscape and Database.EscapeChainChar state the replacements the commands use |
| Text.Split | LibMpc/Types/MpdDirectory.cs:16 | There is always at least one piece. Text.SplitJoin and Text.JoinSplit state that Split and Join undo each other |
| Text.IntToString | Sources/MpcNET/Commands/Queue/AddCommand.cs:30 | The text is not empty, holds only digits after an optional leading `-`, and starts with `-` exactly for a negative number |
| Text.SplitJoin | LibMpc/Types/MpdDirectory.cs:16 | Splitting the join of parts that do not contain the separator gives the parts back |
| Text.JoinSplit | LibMpc/Types/MpdDirectory.cs:16 | Joining the pieces of a split with the separator gives back the string |
| Text.LastPieceIsSuffix | LibMpc/Types/MpdDirectory.cs:16 | The last piece of a split is the suffix after the last separator: it contains no separator, and it is the whole string or follows a separator |
| Text.IntToStringRoundTrip | Sources/MpcNET/Commands/Queue/AddCommand.cs:30 | The decimal text of an integer reads back as that integer |
| Directory.DirectoryName | LibMpc/Types/MpdDirectory.cs:16-17 | The name never contains `/`. It is the last `/`-separated piece of the path when that piece is not empty, and `root` when it is empty |
| Directory.NameIsLastSegment | LibMpc/Types/MpdDirectory.cs:16-17 | Unless the name is `root`, it is a suffix of the path that is the whole path or follows a `/`. The empty path and a path ending in `/` are named `root`, and a path without `/` names itself |
| Directory.NameAfterLastSlash | LibMpc/Types/MpdDirectory.cs:16-17 | When a `/` is followed by non-empty text without `/`, the name is that text: `music/rock` is named `rock` |
| Directory.MpdDirectory.constructor | LibMpc/Types/MpdDirectory.cs:10-18 | The path is stored unchanged, the name is derived from it, and the file list starts empty |
| Directory.MpdDirectory.AddFile | LibMpc/Types/MpdDirectory.cs:24-27 | Appends exactly one entry at the end, leaving the earlier entries and their order unchanged |

## Left out

- Sockets, connecting, sending, command lists and the response parser are not part of this model. A response is taken as its ordered key/value pairs.
- The `Deserialize` of find, search and searchadd builds files with `MpdFile.CreateList`, which is not part of this model.
- Null arguments are not modelled, because Dafny strings and lists are never null. This covers:
  - the `CheckNotNull` rejection of a null path in `MpdDirectory`;
  - a null tag list or filter list given to the find/search constructors;
  - a `list` command with a filter tag and a null filter value, whose escape would throw.
- `ITag` is not part of this model: a tag is its name string.
- The find/search constructors that take a list keep a reference to the caller's `List`, so changing that list later changes the line. The model stores the list as a value, so this aliasing is not modelled.
- `MpdFile` is not part of this model: a directory's file entries are the paths they were made from.
- `GetDescription` reads the operator's `Description` attribute by reflection. It is modelled as the fixed map that the attributes give, so its null result for non-enum types is not modelled.
- `KeyValuePair.ToString` is a parameter `render`. The `Deserialize` of add, addid, playlistadd, playlistdelete and consume is `Wire.JoinPairs` with that parameter.
- `int.ToString` is the invariant-culture decimal text, with a leading `-` for negative numbers.
- `Wire.Tokenize` is a reference definition of how the daemon splits a request line into arguments, written from the protocol's quoting rules. It is not the daemon's code.
- Filters.FormattedRoundTrip: needs a name with no space that does not start with `!`. Any value is allowed except that a value holding `"` breaks the line, which `Database.UnescapedQuoteBreaksLine` shows.
- Database.FilterCommandReadsBack: needs names and values free of `\` and `"`, because the code escapes neither.
- Database.TagCommandReadsBack: needs tags free of `\` and `"`, because tags are not escaped. Values may hold any character.
- Queue.AtEndReadsBack: needs URIs free of `\` and `"`, because the URI is not escaped. `Queue.AtPositionReadsBack` and the `playlistadd`/`playlistdelete` read-back lemmas have the same condition on the URI and the playlist name.
- DatabaseList.ReadsBack: needs tag names that are one word, because tags are written bare.

## Findings

| source | as written | input that shows it | evidently intended | confidence | as-written member | corrected member |
|---|---|---|---|---|---|---|
| Sources/MpcNET/Commands/Playlist/PlaylistDeleteCommand.cs:26-30 | The constructor never assigns `endpos`. The field keeps 0, so `Serialize` always writes `<start>:0` | `PlaylistDeleteCommand("p", 5)` gives `playlistdelete "p" 5:0` | `playlistdelete "p" 5` without an end, and `<start>:<end>` with the end passed | high; not executed | Playlist.EndposDropped | Playlist.IntendedReadsBack |

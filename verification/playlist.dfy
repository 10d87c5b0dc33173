/** The stored-playlist commands `playlistadd` and `playlistdelete`. */
module Playlist {
  import opened Wrappers
  import opened Text
  import opened Wire

  // ---------------------------------------------------------------------------
  // playlistadd

  /** The stored position is the decimal text of the position argument, or
      empty when none was given. */
  datatype PlaylistAddCommand = PlaylistAddCommand(playlist: string, uri: string, position: string)

  /** The constructor without a position. */
  function PlaylistAddAtEnd(playlistName: string, uri: string): PlaylistAddCommand {
    PlaylistAddCommand(playlistName, uri, "")
  }

  /** The constructor with a position. */
  function PlaylistAddAt(playlistName: string, uri: string, position: Int32): PlaylistAddCommand {
    PlaylistAddCommand(playlistName, uri, IntToString(position))
  }

  /** `playlistadd "<name>" "<uri>" <position>`, neither name nor URI
      escaped. */
  function SerializeAdd(cmd: PlaylistAddCommand): string {
    Join(" ", ["playlistadd", "\"" + cmd.playlist + "\"", "\"" + cmd.uri + "\"", cmd.position])
  }

  /** Without a position the line ends in the quoted URI and exactly one
      space. */
  lemma AddAtEndLine(playlistName: string, uri: string)
    ensures SerializeAdd(PlaylistAddAtEnd(playlistName, uri))
         == "playlistadd \"" + playlistName + "\" \"" + uri + "\" "
  {
    JoinOfFour(" ", "playlistadd", "\"" + playlistName + "\"", "\"" + uri + "\"", "");
  }

  /** With a position the line ends in its decimal text, which reads back as
      the position. */
  lemma AddAtLine(playlistName: string, uri: string, position: Int32)
    ensures SerializeAdd(PlaylistAddAt(playlistName, uri, position))
         == "playlistadd \"" + playlistName + "\" \"" + uri + "\" " + IntToString(position)
    ensures ParseInt(IntToString(position)) == Some(position as int)
  {
    JoinOfFour(" ", "playlistadd", "\"" + playlistName + "\"", "\"" + uri + "\"", IntToString(position));
    IntToStringRoundTrip(position);
  }

  /** When neither name nor URI has a backslash or a double quote, the line
      without a position reads back as the command, the name and the URI. */
  lemma AddAtEndReadsBack(playlistName: string, uri: string)
    requires PlainText(playlistName) && PlainText(uri)
    ensures Tokenize(SerializeAdd(PlaylistAddAtEnd(playlistName, uri))) == Some(["playlistadd", playlistName, uri])
  {
    var quotedName, quotedUri := "\"" + playlistName + "\"", "\"" + uri + "\"";
    JoinOfFour(" ", "playlistadd", quotedName, quotedUri, "");
    assert SerializeAdd(PlaylistAddAtEnd(playlistName, uri)) == "playlistadd" + " " + quotedName + " " + quotedUri + " ";
    QuotePlain(playlistName);
    QuotePlain(uri);
    assert IsBareWord("playlistadd");
    ReadsBackThree(Bare("playlistadd"), Quoted(playlistName), Quoted(uri));
  }

  /** When neither name nor URI has a backslash or a double quote, the line
      with a position reads back as the command, the name, the URI and the
      position. */
  lemma AddAtReadsBack(playlistName: string, uri: string, position: Int32)
    requires PlainText(playlistName) && PlainText(uri)
    ensures Tokenize(SerializeAdd(PlaylistAddAt(playlistName, uri, position)))
         == Some(["playlistadd", playlistName, uri, IntToString(position)])
  {
    var p := IntToString(position);
    JoinOfFour(" ", "playlistadd", "\"" + playlistName + "\"", "\"" + uri + "\"", p);
    QuotePlain(playlistName);
    QuotePlain(uri);
    IntIsBareWord(position);
    assert IsBareWord("playlistadd");
    ReadsBackFour(Bare("playlistadd"), Quoted(playlistName), Quoted(uri), Bare(p));
  }

  // ---------------------------------------------------------------------------
  // playlistdelete

  /** The fields of the command; an end of `int.MinValue` means no end. */
  datatype PlaylistDeleteCommand = PlaylistDeleteCommand(playlist: string, startpos: Int32, endpos: Int32)

  /** The constructor as written: it stores the name and the start but never
      the end, so the end field keeps its default value 0. */
  function NewPlaylistDelete(playlistName: string, startpos: Int32, endpos: Int32 := IntMinValue): (cmd: PlaylistDeleteCommand)
    ensures cmd.playlist == playlistName && cmd.startpos == startpos
    ensures cmd.endpos == 0
  {
    PlaylistDeleteCommand(playlistName, startpos, 0)
  }

  /** The constructor as intended: the end is stored as given. */
  function NewPlaylistDeleteIntended(playlistName: string, startpos: Int32, endpos: Int32 := IntMinValue): (cmd: PlaylistDeleteCommand)
    ensures cmd.playlist == playlistName && cmd.startpos == startpos
    ensures cmd.endpos == endpos
  {
    PlaylistDeleteCommand(playlistName, startpos, endpos)
  }

  /** `<start>:<end>`, or `<start>` alone when the end is `int.MinValue`. */
  function Range(cmd: PlaylistDeleteCommand): string {
    if cmd.endpos != IntMinValue then IntToString(cmd.startpos) + ":" + IntToString(cmd.endpos)
    else IntToString(cmd.startpos)
  }

  /** `playlistdelete "<name>" <range>`, the name not escaped. */
  function SerializeDelete(cmd: PlaylistDeleteCommand): string {
    Join(" ", ["playlistdelete", "\"" + cmd.playlist + "\"", Range(cmd)])
  }

  /** How the daemon reads a position or a range: one integer, or two
      separated by a colon. */
  function ParseRange(t: string): Option<(int, Option<int>)> {
    var pieces := Split(t, ':');
    if |pieces| == 1 then
      match ParseInt(pieces[0])
      case Some(s) => Some((s, None))
      case None => None
    else if |pieces| == 2 then
      match (ParseInt(pieces[0]), ParseInt(pieces[1]))
      case (Some(s), Some(e)) => Some((s, Some(e)))
      case _ => None
    else None
  }

  lemma NoColonInInt(i: int)
    ensures ':' !in IntToString(i)
  {
    var s := IntToString(i);
    assert forall k :: 0 <= k < |s| ==> s[k] != ':';
  }

  /** The range text reads back as the start, and as the end exactly when
      one is stored. */
  lemma RangeReadsBack(cmd: PlaylistDeleteCommand)
    ensures ParseRange(Range(cmd))
         == Some((cmd.startpos as int, if cmd.endpos != IntMinValue then Some(cmd.endpos as int) else None))
  {
    var a := IntToString(cmd.startpos);
    var b := IntToString(cmd.endpos);
    NoColonInInt(cmd.startpos);
    NoColonInInt(cmd.endpos);
    IntToStringRoundTrip(cmd.startpos);
    IntToStringRoundTrip(cmd.endpos);
    if cmd.endpos != IntMinValue {
      JoinOfTwo(":", a, b);
      SplitJoin([a, b], ':');
      assert Split(Range(cmd), ':') == [a, b];
    } else {
      SplitJoin([a], ':');
      assert Split(Range(cmd), ':') == [a];
    }
  }

  /** The range text is one word. */
  lemma RangeIsBareWord(cmd: PlaylistDeleteCommand)
    ensures IsBareWord(Range(cmd))
  {
    var a := IntToString(cmd.startpos);
    var b := IntToString(cmd.endpos);
    var r := Range(cmd);
    assert forall k :: 0 <= k < |a| ==> a[k] != ' ';
    assert forall k :: 0 <= k < |b| ==> b[k] != ' ';
    assert r[0] == a[0];
    forall k | 0 <= k < |r| ensures r[k] != ' ' {
      if k >= |a| + 1 && cmd.endpos != IntMinValue {
        assert r[k] == b[k - |a| - 1];
      }
    }
  }

  /** As written, whatever end is passed (or none), the line always asks for
      the range from the start to 0. */
  lemma EndposDropped(playlistName: string, startpos: Int32, endpos: Int32)
    ensures NewPlaylistDelete(playlistName, startpos, endpos) == NewPlaylistDelete(playlistName, startpos)
    ensures SerializeDelete(NewPlaylistDelete(playlistName, startpos, endpos))
         == "playlistdelete \"" + playlistName + "\" " + IntToString(startpos) + ":0"
    ensures ParseRange(Range(NewPlaylistDelete(playlistName, startpos, endpos))) == Some((startpos as int, Some(0)))
  {
    var cmd := NewPlaylistDelete(playlistName, startpos, endpos);
    DeleteLine(cmd);
    ZeroIsWrittenAsZero();
    RangeReadsBack(cmd);
  }

  /** As written, when the name has no backslash or double quote, the
      daemon reads the name and the range `<start>:0`, whatever end was
      passed. */
  lemma EndposDroppedReadsBack(playlistName: string, startpos: Int32, endpos: Int32)
    requires PlainText(playlistName)
    ensures Tokenize(SerializeDelete(NewPlaylistDelete(playlistName, startpos, endpos)))
         == Some(["playlistdelete", playlistName, IntToString(startpos) + ":0"])
  {
    var cmd := NewPlaylistDelete(playlistName, startpos, endpos);
    DeleteReadsBack(cmd);
    ZeroIsWrittenAsZero();
    RangeOfZero(IntToString(startpos), Range(cmd), IntToString(0));
  }

  /** The range text with the stored end 0 ends in `:0`. */
  lemma RangeOfZero(start: string, range: string, zero: string)
    requires zero == "0" && range == start + ":" + zero
    ensures range == start + ":0"
  {
  }

  /** Any delete command with a plain name reads back as the name and the
      range text. */
  lemma DeleteReadsBack(cmd: PlaylistDeleteCommand)
    requires PlainText(cmd.playlist)
    ensures Tokenize(SerializeDelete(cmd)) == Some(["playlistdelete", cmd.playlist, Range(cmd)])
  {
    JoinOfThree(" ", "playlistdelete", "\"" + cmd.playlist + "\"", Range(cmd));
    QuotePlain(cmd.playlist);
    RangeIsBareWord(cmd);
    assert IsBareWord("playlistdelete");
    ReadsBackThree(Bare("playlistdelete"), Quoted(cmd.playlist), Bare(Range(cmd)));
  }

  /** The end that is stored, 0, is written `0`. */
  lemma ZeroIsWrittenAsZero()
    ensures IntToString(0) == "0"
  {
  }

  /** The line of any delete command: the quoted name, then the range. */
  lemma DeleteLine(cmd: PlaylistDeleteCommand)
    ensures SerializeDelete(cmd) == "playlistdelete \"" + cmd.playlist + "\" " + Range(cmd)
  {
    JoinOfThree(" ", "playlistdelete", "\"" + cmd.playlist + "\"", Range(cmd));
  }

  /** Deleting the song at position 5 of playlist `p`: as written the line
      is `playlistdelete "p" 5:0`, where `playlistdelete "p" 5` was meant. */
  lemma EndposDroppedExample()
    ensures SerializeDelete(NewPlaylistDelete("p", 5)) == "playlistdelete \"p\" 5:0"
    ensures SerializeDelete(NewPlaylistDeleteIntended("p", 5)) == "playlistdelete \"p\" 5"
  {
    EndposDropped("p", 5, IntMinValue);
    IntendedLine("p", 5, IntMinValue);
    var five := IntToString(5);
    assert five == "5";
    ExampleLines("p", five);
  }

  /** The two lines of the example, spelled out from their pieces. */
  lemma ExampleLines(name: string, five: string)
    requires name == "p" && five == "5"
    ensures "playlistdelete \"" + name + "\" " + five + ":0" == "playlistdelete \"p\" 5:0"
    ensures "playlistdelete \"" + name + "\" " + five == "playlistdelete \"p\" 5"
  {
  }

  /** As intended, the line is `playlistdelete "<name>" <start>` without an
      end and `playlistdelete "<name>" <start>:<end>` with one. */
  lemma IntendedLine(playlistName: string, startpos: Int32, endpos: Int32)
    ensures var cmd := NewPlaylistDeleteIntended(playlistName, startpos, endpos);
      SerializeDelete(cmd) == "playlistdelete \"" + playlistName + "\" " + Range(cmd)
    ensures endpos == IntMinValue ==> Range(NewPlaylistDeleteIntended(playlistName, startpos, endpos)) == IntToString(startpos)
    ensures endpos != IntMinValue ==> Range(NewPlaylistDeleteIntended(playlistName, startpos, endpos))
                                      == IntToString(startpos) + ":" + IntToString(endpos)
  {
    DeleteLine(NewPlaylistDeleteIntended(playlistName, startpos, endpos));
  }

  /** As intended, when the name has no backslash or double quote, the
      daemon reads back the name, the start, and the end exactly when one
      was given. */
  lemma IntendedReadsBack(playlistName: string, startpos: Int32, endpos: Int32)
    requires PlainText(playlistName)
    ensures var cmd := NewPlaylistDeleteIntended(playlistName, startpos, endpos);
      && Tokenize(SerializeDelete(cmd)) == Some(["playlistdelete", playlistName, Range(cmd)])
      && ParseRange(Range(cmd)) == Some((startpos as int, if endpos != IntMinValue then Some(endpos as int) else None))
  {
    var cmd := NewPlaylistDeleteIntended(playlistName, startpos, endpos);
    DeleteReadsBack(cmd);
    RangeReadsBack(cmd);
  }
}

/** The playback commands `consume` and `getvol`. */
module Playback {
  import opened Wrappers
  import opened Text
  import opened Wire

  // ---------------------------------------------------------------------------
  // consume

  /** The stored state argument: `"1"` or `"0"`, or none for the
      constructor without arguments. */
  datatype ConsumeCommand = ConsumeCommand(single: Option<string>)

  function NewConsume(single: bool): ConsumeCommand {
    ConsumeCommand(Some(if single then "1" else "0"))
  }

  function ConsumeToggle(): ConsumeCommand {
    ConsumeCommand(None)
  }

  /** `consume` alone, or `consume <state>`. */
  function SerializeConsume(cmd: ConsumeCommand): string {
    match cmd.single
    case None => Join(" ", ["consume"])
    case Some(s) => Join(" ", ["consume", s])
  }

  /** How the daemon reads the state argument: absent, `1` or `0`. */
  function ReadConsume(tokens: seq<string>): Option<Option<bool>> {
    if tokens == ["consume"] then Some(None)
    else if tokens == ["consume", "1"] then Some(Some(true))
    else if tokens == ["consume", "0"] then Some(Some(false))
    else None
  }

  /** `consume 1` to switch consume mode on, `consume 0` to switch it off,
      and the line reads back as the state that was given. */
  lemma ConsumeReadsBack(single: bool)
    ensures SerializeConsume(NewConsume(single)) == if single then "consume 1" else "consume 0"
    ensures Tokenize(SerializeConsume(NewConsume(single))) == Some(["consume", if single then "1" else "0"])
    ensures ReadConsume(["consume", if single then "1" else "0"]) == Some(Some(single))
  {
    StateReadsBack(if single then "1" else "0");
  }

  lemma StateReadsBack(s: string)
    requires s == "1" || s == "0"
    ensures Join(" ", ["consume", s]) == "consume " + s
    ensures Tokenize("consume " + s) == Some(["consume", s])
  {
    JoinOfTwo(" ", "consume", s);
    assert "consume" + " " + s == "consume " + s;
    assert IsBareWord("consume") && IsBareWord(s);
    ReadsBackTwo(Bare("consume"), Bare(s));
  }

  /** Without arguments the line is exactly `consume`, with no trailing
      space, and reads back as a request without a state. */
  lemma ConsumeToggleReadsBack()
    ensures SerializeConsume(ConsumeToggle()) == "consume"
    ensures Tokenize(SerializeConsume(ConsumeToggle())) == Some(["consume"])
    ensures ReadConsume(["consume"]) == Some(None)
  {
    var args := [Bare("consume")];
    LineOne(args[0]);
    assert IsBareWord("consume");
    TokenizeWholeLine(args);
    assert Texts(args) == ["consume"];
  }

  /** Different states give different lines, and the toggle's line differs
      from both. */
  lemma ConsumeInjective(a: bool, b: bool)
    ensures SerializeConsume(NewConsume(a)) == SerializeConsume(NewConsume(b)) <==> a == b
    ensures SerializeConsume(ConsumeToggle()) != SerializeConsume(NewConsume(a))
  {
    ConsumeReadsBack(a);
    ConsumeReadsBack(b);
    ConsumeToggleReadsBack();
    assert |SerializeConsume(ConsumeToggle())| != |SerializeConsume(NewConsume(a))|;
    if a != b {
      assert SerializeConsume(NewConsume(a))[8] != SerializeConsume(NewConsume(b))[8];
    }
  }

  // ---------------------------------------------------------------------------
  // getvol

  function SerializeGetVolume(): string {
    "getvol"
  }

  /** The value of the first pair when its key is `volume`, and the empty
      string otherwise. */
  function DeserializeGetVolume(response: Response): string {
    if |response| > 0 && response[0].0 == "volume" then response[0].1 else ""
  }

  /** The request is the single word `getvol`. */
  lemma GetVolumeLine()
    ensures Tokenize(SerializeGetVolume()) == Some(["getvol"])
  {
    var args := [Bare("getvol")];
    LineOne(args[0]);
    assert IsBareWord("getvol");
    TokenizeWholeLine(args);
    assert Texts(args) == ["getvol"];
  }

  /** A response whose first pair is `volume` gives that pair's value,
      whatever follows. */
  lemma VolumeFromFirstPair(value: string, rest: Response)
    ensures DeserializeGetVolume([("volume", value)] + rest) == value
  {
  }

  /** Only the first pair is looked at: an empty response, or one whose first
      key is not `volume`, gives the empty string even when a later pair is
      `volume`; and what follows the first pair never matters. */
  lemma OnlyFirstPairCounts(response: Response, p: Pair, rest: Response)
    ensures DeserializeGetVolume([]) == ""
    ensures p.0 != "volume" ==> DeserializeGetVolume([p] + rest) == ""
    ensures DeserializeGetVolume([p] + rest) == DeserializeGetVolume([p])
    ensures DeserializeGetVolume(response) != "" ==> response[0].0 == "volume" && DeserializeGetVolume(response) == response[0].1
  {
  }
}

/** The request line as the daemon reads it back, and the response as a
    sequence of key/value pairs.

    A request line is a command word followed by arguments separated by
    spaces. An argument is either a bare word, or a double-quoted string in
    which a backslash makes the next character literal. `Tokenize` is that
    reading; it is the reference against which every command's `Serialize`
    is proved. */
module Wire {
  import opened Wrappers
  import opened Text

  // ---------------------------------------------------------------------------
  // Backslash escaping

  /** Each character of `s` that is in `special` gets a backslash in front of
      it; every other character is kept as it is. */
  function Escaped(s: string, special: set<char>): string
    decreases |s|
  {
    if s == [] then []
    else (if s[0] in special then ['\\', s[0]] else [s[0]]) + Escaped(s[1..], special)
  }

  /** The characters that must be escaped inside a quoted argument. */
  const QuoteSpecials: set<char> := {'\\', '"'}

  /** An argument as a double-quoted string, escaped at the protocol level. */
  function Quote(s: string): string {
    "\"" + Escaped(s, QuoteSpecials) + "\""
  }

  lemma {:induction false} EscapedAppend(a: string, b: string, special: set<char>)
    ensures Escaped(a + b, special) == Escaped(a, special) + Escaped(b, special)
    decreases |a|
  {
    if a != [] {
      assert (a + b)[1..] == a[1..] + b;
      EscapedAppend(a[1..], b, special);
    } else {
      assert a + b == b;
    }
  }

  /** A string with none of the special characters is not changed. */
  lemma {:induction false} EscapedPlain(s: string, special: set<char>)
    requires forall k :: 0 <= k < |s| ==> s[k] !in special
    ensures Escaped(s, special) == s
    decreases |s|
  {
    if s != [] {
      EscapedPlain(s[1..], special);
    }
  }

  /** Escaping adds one character per special character. */
  function CountIn(s: string, special: set<char>): nat
    decreases |s|
  {
    if s == [] then 0 else (if s[0] in special then 1 else 0) + CountIn(s[1..], special)
  }

  lemma {:induction false} EscapedLength(s: string, special: set<char>)
    ensures |Escaped(s, special)| == |s| + CountIn(s, special)
    decreases |s|
  {
    if s != [] {
      EscapedLength(s[1..], special);
    }
  }

  /** Escapes each string of a sequence. */
  function EscapedAll(parts: seq<string>, special: set<char>): (r: seq<string>)
    ensures |r| == |parts|
    decreases |parts|
  {
    if parts == [] then [] else [Escaped(parts[0], special)] + EscapedAll(parts[1..], special)
  }

  /** Escaping a joined string escapes each part, when the separator has no
      special character. */
  lemma {:induction false} EscapedJoin(sep: string, parts: seq<string>, special: set<char>)
    requires forall k :: 0 <= k < |sep| ==> sep[k] !in special
    ensures Escaped(Join(sep, parts), special) == Join(sep, EscapedAll(parts, special))
    decreases |parts|
  {
    if |parts| > 1 {
      EscapedJoin(sep, parts[1..], special);
      EscapedJoinStep(sep, parts[0], Join(sep, parts[1..]), special);
      assert EscapedAll(parts, special)[1..] == EscapedAll(parts[1..], special);
    }
  }

  lemma EscapedJoinStep(sep: string, head: string, rest: string, special: set<char>)
    requires forall k :: 0 <= k < |sep| ==> sep[k] !in special
    ensures Escaped(head + sep + rest, special) == Escaped(head, special) + sep + Escaped(rest, special)
  {
    EscapedAppend(head, sep + rest, special);
    EscapedAppend(sep, rest, special);
    EscapedPlain(sep, special);
    assert head + sep + rest == head + (sep + rest);
  }

  /** Text that a quoted argument carries unchanged: no backslash and no
      double quote. */
  predicate PlainText(s: string) {
    forall k :: 0 <= k < |s| ==> s[k] !in QuoteSpecials
  }

  /** Plain text in front is kept as it is. */
  lemma EscapedPlainPrefix(a: string, b: string)
    requires PlainText(a)
    ensures Escaped(a + b, QuoteSpecials) == a + Escaped(b, QuoteSpecials)
  {
    EscapedAppend(a, b, QuoteSpecials);
    EscapedPlain(a, QuoteSpecials);
  }

  /** A double quote in front gets its backslash. */
  lemma EscapedQuotePrefix(b: string)
    ensures Escaped("\"" + b, QuoteSpecials) == "\\\"" + Escaped(b, QuoteSpecials)
  {
    EscapedAppend("\"", b, QuoteSpecials);
  }

  // ---------------------------------------------------------------------------
  // Reading a request line

  /** Reads the inside of a quoted string whose opening quote has been
      consumed: the unescaped text and what follows the closing quote, or
      `None` when the quote is never closed. */
  function ReadQuoted(t: string): (r: Option<(string, string)>)
    ensures r.Some? ==> |r.value.1| < |t|
    decreases |t|
  {
    if t == [] then None
    else if t[0] == '"' then Some(([], t[1..]))
    else if t[0] == '\\' then
      if |t| < 2 then None
      else match ReadQuoted(t[2..])
        case None => None
        case Some((v, rest)) => Some(([t[1]] + v, rest))
    else match ReadQuoted(t[1..])
      case None => None
      case Some((v, rest)) => Some(([t[0]] + v, rest))
  }

  /** Length of the bare word at the head of `s`: everything up to the next
      space. */
  function WordLength(s: string): (n: nat)
    ensures n <= |s|
    ensures s != [] && s[0] != ' ' ==> n > 0
    decreases |s|
  {
    if s == [] || s[0] == ' ' then 0 else 1 + WordLength(s[1..])
  }

  /** The arguments of a request line, as the daemon reads them: spaces
      separate arguments; a quoted argument must be closed and followed by a
      space or the end of the line. */
  function Tokenize(s: string): Option<seq<string>>
    decreases |s|
  {
    if s == [] then Some([])
    else if s[0] == ' ' then Tokenize(s[1..])
    else if s[0] == '"' then
      match ReadQuoted(s[1..])
      case None => None
      case Some((v, rest)) =>
        if rest != [] && rest[0] != ' ' then None
        else Prepend([v], Tokenize(rest))
    else
      var n := WordLength(s);
      Prepend([s[..n]], Tokenize(s[n..]))
  }

  function Prepend(xs: seq<string>, r: Option<seq<string>>): Option<seq<string>> {
    match r
    case None => None
    case Some(ys) => Some(xs + ys)
  }

  // ---------------------------------------------------------------------------
  // Writing a request line

  /** One argument as a command writes it. */
  datatype Arg = Bare(text: string) | Quoted(text: string)

  /** A bare word reads back as itself: it is not empty, has no space and does
      not start with a double quote. */
  predicate IsBareWord(w: string) {
    |w| > 0 && w[0] != '"' && ' ' !in w
  }

  predicate WellFormed(a: Arg) {
    a.Bare? ==> IsBareWord(a.text)
  }

  function Render(a: Arg): string {
    match a
    case Bare(w) => w
    case Quoted(t) => Quote(t)
  }

  function Renders(args: seq<Arg>): (r: seq<string>)
    ensures |r| == |args|
    decreases |args|
  {
    if args == [] then [] else [Render(args[0])] + Renders(args[1..])
  }

  function Texts(args: seq<Arg>): (r: seq<string>)
    ensures |r| == |args|
    decreases |args|
  {
    if args == [] then [] else [args[0].text] + Texts(args[1..])
  }

  /** The request line for a sequence of arguments. */
  function Line(args: seq<Arg>): string {
    Join(" ", Renders(args))
  }

  lemma LineCons(a: Arg, rest: seq<Arg>)
    requires |rest| > 0
    ensures Line([a] + rest) == Render(a) + " " + Line(rest)
  {
    assert Renders([a] + rest) == [Render(a)] + Renders(rest);
    assert Renders([a] + rest)[1..] == Renders(rest);
  }

  lemma LineOne(a: Arg)
    ensures Line([a]) == Render(a)
  {
  }

  lemma LineOfFour(a: Arg, b: Arg, c: Arg, d: Arg)
    ensures Line([a, b, c, d]) == Render(a) + " " + Render(b) + " " + Render(c) + " " + Render(d)
  {
    assert [a, b, c, d] == [a] + [b, c, d];
    LineCons(a, [b, c, d]);
    LineOfThree(b, c, d);
  }

  lemma LineOfThree(a: Arg, b: Arg, c: Arg)
    ensures Line([a, b, c]) == Render(a) + " " + Render(b) + " " + Render(c)
  {
    LineCons(b, [c]);
    assert [b, c] == [b] + [c];
    LineCons(a, [b, c]);
    assert [a, b, c] == [a] + [b, c];
  }

  lemma LineOfTwo(a: Arg, b: Arg)
    ensures Line([a, b]) == Render(a) + " " + Render(b)
  {
    LineCons(a, [b]);
    assert [a, b] == [a] + [b];
  }

  lemma TextsOfTwo(a: Arg, b: Arg)
    ensures Texts([a, b]) == [a.text, b.text]
  {
    assert [a, b][1..] == [b];
  }

  lemma TextsOfThree(a: Arg, b: Arg, c: Arg)
    ensures Texts([a, b, c]) == [a.text, b.text, c.text]
  {
    assert [a, b, c][1..] == [b, c];
    TextsOfTwo(b, c);
  }

  lemma TextsOfFour(a: Arg, b: Arg, c: Arg, d: Arg)
    ensures Texts([a, b, c, d]) == [a.text, b.text, c.text, d.text]
  {
    assert [a, b, c, d][1..] == [b, c, d];
    TextsOfThree(b, c, d);
  }

  /** Text with no backslash and no double quote is quoted as itself. */
  lemma QuotePlain(s: string)
    requires PlainText(s)
    ensures Quote(s) == "\"" + s + "\""
  {
    EscapedPlain(s, QuoteSpecials);
  }

  /** A quoted string reads back as the text that was escaped, for any set of
      special characters that includes the backslash and the double quote. */
  lemma {:induction false} ReadEscaped(v: string, special: set<char>, rest: string)
    requires '\\' in special && '"' in special
    ensures ReadQuoted(Escaped(v, special) + "\"" + rest) == Some((v, rest))
    decreases |v|
  {
    var t := Escaped(v, special) + "\"" + rest;
    if v == [] {
      assert t == "\"" + rest;
    } else {
      var tail := Escaped(v[1..], special) + "\"" + rest;
      ReadEscaped(v[1..], special, rest);
      if v[0] in special {
        assert t == ['\\', v[0]] + tail;
        assert t[2..] == tail;
      } else {
        assert t == [v[0]] + tail;
        assert t[1..] == tail;
      }
      assert [v[0]] + v[1..] == v;
    }
  }

  lemma {:induction false} WordLengthOf(w: string, tail: string)
    requires ' ' !in w
    requires tail == [] || tail[0] == ' '
    ensures WordLength(w + tail) == |w|
    decreases |w|
  {
    if w != [] {
      assert (w + tail)[1..] == w[1..] + tail;
      WordLengthOf(w[1..], tail);
    } else {
      assert w + tail == tail;
    }
  }

  lemma TokenizeBare(w: string, tail: string)
    requires IsBareWord(w)
    requires tail == [] || tail[0] == ' '
    ensures Tokenize(w + tail) == Prepend([w], Tokenize(tail))
  {
    var s := w + tail;
    WordLengthOf(w, tail);
    assert s[0] == w[0];
    assert s[..|w|] == w && s[|w|..] == tail;
  }

  lemma TokenizeQuoted(t: string, tail: string)
    requires tail == [] || tail[0] == ' '
    ensures Tokenize(Quote(t) + tail) == Prepend([t], Tokenize(tail))
  {
    var s := Quote(t) + tail;
    var e := Escaped(t, QuoteSpecials);
    assert s == "\"" + (e + "\"" + tail);
    assert s[1..] == e + "\"" + tail;
    ReadEscaped(t, QuoteSpecials, tail);
  }

  /** A quoted argument closed by a double quote that is followed by more
      text (not a space) makes the whole line unreadable. */
  lemma QuoteClosedEarly(w: string, y: string, rest: string)
    requires IsBareWord(w)
    requires rest != [] && rest[0] != ' '
    ensures Tokenize(w + " \"" + Escaped(y, QuoteSpecials) + "\"" + rest) == None
  {
    var e := Escaped(y, QuoteSpecials);
    var t := "\"" + e + "\"" + rest;
    QuotedThenText(y, rest);
    SpaceThenText(t);
    BareThenSpace(w, t);
    SpaceQuote(w, e, rest);
  }

  lemma SpaceQuote(w: string, e: string, rest: string)
    ensures w + " \"" + e + "\"" + rest == w + " " + ("\"" + e + "\"" + rest)
  {
    assert " \"" == " " + "\"";
  }

  lemma QuotedThenText(y: string, rest: string)
    requires rest != [] && rest[0] != ' '
    ensures Tokenize("\"" + Escaped(y, QuoteSpecials) + "\"" + rest) == None
  {
    var e := Escaped(y, QuoteSpecials);
    var t := "\"" + e + "\"" + rest;
    assert t[0] == '"';
    assert t[1..] == e + "\"" + rest;
    ReadEscaped(y, QuoteSpecials, rest);
  }

  lemma BareThenSpace(w: string, t: string)
    requires IsBareWord(w)
    ensures Tokenize(w + " " + t) == Prepend([w], Tokenize(" " + t))
  {
    assert w + " " + t == w + (" " + t);
    TokenizeBare(w, " " + t);
  }

  lemma SpaceThenText(t: string)
    ensures Tokenize(" " + t) == Tokenize(t)
  {
    assert (" " + t)[1..] == t;
  }

  /** One well-formed argument followed by the end of the line or a space
      reads back as its text. */
  lemma TokenizeArg(a: Arg, tail: string)
    requires WellFormed(a)
    requires tail == [] || tail[0] == ' '
    ensures Tokenize(Render(a) + tail) == Prepend([a.text], Tokenize(tail))
  {
    match a
    case Bare(w) => TokenizeBare(w, tail);
    case Quoted(t) => TokenizeQuoted(t, tail);
  }

  /** A line written from well-formed arguments, followed by nothing or by
      more text after a space, reads back as the arguments' texts in order. */
  lemma {:induction false} TokenizeLine(args: seq<Arg>, tail: string)
    requires |args| > 0
    requires forall k :: 0 <= k < |args| ==> WellFormed(args[k])
    requires tail == [] || tail[0] == ' '
    ensures Tokenize(Line(args) + tail) == Prepend(Texts(args), Tokenize(tail))
    decreases |args|
  {
    if |args| == 1 {
      assert Line(args) == Render(args[0]);
      assert Texts(args) == [args[0].text];
      TokenizeArg(args[0], tail);
    } else {
      var rest := Line(args[1..]) + tail;
      LineSplit(args, tail);
      TokenizeArg(args[0], " " + rest);
      SpaceThenText(rest);
      TokenizeLine(args[1..], tail);
      assert Texts(args) == [args[0].text] + Texts(args[1..]);
      PrependTwice(args[0].text, Texts(args[1..]), Tokenize(tail));
    }
  }

  lemma LineSplit(args: seq<Arg>, tail: string)
    requires |args| > 1
    ensures Line(args) + tail == Render(args[0]) + (" " + (Line(args[1..]) + tail))
  {
    assert args == [args[0]] + args[1..];
    LineCons(args[0], args[1..]);
  }

  lemma PrependTwice(x: string, xs: seq<string>, r: Option<seq<string>>)
    ensures Prepend([x], Prepend(xs, r)) == Prepend([x] + xs, r)
  {
    match r
    case None =>
    case Some(ys) =>
      assert [x] + (xs + ys) == ([x] + xs) + ys;
  }

  /** A whole line reads back as its arguments, and so does the line with one
      trailing space. */
  lemma TokenizeWholeLine(args: seq<Arg>)
    requires |args| > 0
    requires forall k :: 0 <= k < |args| ==> WellFormed(args[k])
    ensures Tokenize(Line(args)) == Some(Texts(args))
    ensures Tokenize(Line(args) + " ") == Some(Texts(args))
  {
    TokenizeLine(args, "");
    assert Line(args) + "" == Line(args);
    assert Tokenize("") == Some([]);
    assert Texts(args) + [] == Texts(args);
    TokenizeLine(args, " ");
    assert " "[1..] == "";
    assert Tokenize(" ") == Some([]);
  }

  /** A line known to be written from well-formed arguments reads back as
      their texts. */
  lemma LineReadsBack(line: string, args: seq<Arg>, texts: seq<string>)
    requires |args| > 0
    requires forall k :: 0 <= k < |args| ==> WellFormed(args[k])
    requires line == Line(args) && texts == Texts(args)
    ensures Tokenize(line) == Some(texts)
  {
    TokenizeWholeLine(args);
  }

  /** Two, three or four well-formed arguments written with one space between
      them read back as their texts, with or without one trailing space. */
  lemma ReadsBackTwo(a: Arg, b: Arg)
    requires WellFormed(a) && WellFormed(b)
    ensures Tokenize(Render(a) + " " + Render(b)) == Some([a.text, b.text])
    ensures Tokenize(Render(a) + " " + Render(b) + " ") == Some([a.text, b.text])
  {
    var args := [a, b];
    LineOfTwo(a, b);
    assert forall k :: 0 <= k < |args| ==> WellFormed(args[k]);
    TokenizeWholeLine(args);
    TextsOfTwo(a, b);
  }

  lemma ReadsBackThree(a: Arg, b: Arg, c: Arg)
    requires WellFormed(a) && WellFormed(b) && WellFormed(c)
    ensures Tokenize(Render(a) + " " + Render(b) + " " + Render(c)) == Some([a.text, b.text, c.text])
    ensures Tokenize(Render(a) + " " + Render(b) + " " + Render(c) + " ") == Some([a.text, b.text, c.text])
  {
    var args := [a, b, c];
    LineOfThree(a, b, c);
    assert forall k :: 0 <= k < |args| ==> WellFormed(args[k]);
    TokenizeWholeLine(args);
    TextsOfThree(a, b, c);
  }

  lemma ReadsBackFour(a: Arg, b: Arg, c: Arg, d: Arg)
    requires WellFormed(a) && WellFormed(b) && WellFormed(c) && WellFormed(d)
    ensures Tokenize(Render(a) + " " + Render(b) + " " + Render(c) + " " + Render(d)) == Some([a.text, b.text, c.text, d.text])
  {
    var args := [a, b, c, d];
    LineOfFour(a, b, c, d);
    assert forall k :: 0 <= k < |args| ==> WellFormed(args[k]);
    TokenizeWholeLine(args);
    TextsOfFour(a, b, c, d);
  }

  /** A decimal integer is a bare word. */
  lemma IntIsBareWord(i: int)
    ensures IsBareWord(IntToString(i))
  {
    var s := IntToString(i);
    assert forall k :: 0 <= k < |s| ==> s[k] != ' ';
  }

  // ---------------------------------------------------------------------------
  // Responses

  /** One `key: value` line of a response. */
  type Pair = (string, string)

  /** The ordered key/value pairs of a response. */
  type Response = seq<Pair>

  /** `string.Join(", ", response.ResponseValues)`: the rendered pairs in
      response order, `", "` between neighbours. How one pair is rendered is a
      parameter. */
  function JoinPairs(response: Response, render: Pair -> string): string {
    Join(", ", seq(|response|, k requires 0 <= k < |response| => render(response[k])))
  }

  /** An empty response gives the empty string; one more pair adds `", "` and
      its rendering at the end, leaving what came before unchanged. */
  lemma JoinPairsSnoc(response: Response, p: Pair, render: Pair -> string)
    ensures JoinPairs([], render) == ""
    ensures JoinPairs(response + [p], render)
         == if response == [] then render(p) else JoinPairs(response, render) + ", " + render(p)
  {
    var parts := seq(|response|, k requires 0 <= k < |response| => render(response[k]));
    var parts' := seq(|response + [p]|, k requires 0 <= k < |response + [p]| => render((response + [p])[k]));
    assert parts' == parts + [render(p)];
    if response != [] {
      JoinSnoc(", ", parts, render(p));
    } else {
      assert parts' == [render(p)];
    }
  }

  /** The joined text is as long as the renderings plus two characters per
      separator. */
  lemma JoinPairsLength(response: Response, render: Pair -> string)
    requires |response| > 0
    ensures |JoinPairs(response, render)|
         == TotalLength(seq(|response|, k requires 0 <= k < |response| => render(response[k])))
          + 2 * (|response| - 1)
  {
    JoinLength(", ", seq(|response|, k requires 0 <= k < |response| => render(response[k])));
  }
}

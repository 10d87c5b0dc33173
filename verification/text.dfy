/** The string operations of the .NET base library that the commands are
    built from: `string.Join`, `string.Replace` with a one-character pattern,
    `string.Split` on one character, and the decimal rendering of integers. */
module Text {
  import opened Wrappers

  /** A C# `int`. */
  type Int32 = x: int | -0x8000_0000 <= x < 0x8000_0000

  /** `int.MinValue`. */
  const IntMinValue: Int32 := -0x8000_0000

  // ---------------------------------------------------------------------------
  // string.Join

  /** `string.Join(sep, parts)`: the parts in order, `sep` between neighbours. */
  function Join(sep: string, parts: seq<string>): string
    decreases |parts|
  {
    if |parts| == 0 then ""
    else if |parts| == 1 then parts[0]
    else parts[0] + sep + Join(sep, parts[1..])
  }

  /** Total length of a sequence of strings. */
  function TotalLength(parts: seq<string>): nat
    decreases |parts|
  {
    if parts == [] then 0 else |parts[0]| + TotalLength(parts[1..])
  }

  /** Joining adds exactly one separator between each pair of neighbours. */
  lemma {:induction false} JoinLength(sep: string, parts: seq<string>)
    requires |parts| > 0
    ensures |Join(sep, parts)| == TotalLength(parts) + |sep| * (|parts| - 1)
    decreases |parts|
  {
    if |parts| > 1 {
      JoinLength(sep, parts[1..]);
    }
  }

  /** Joining is compatible with appending one more part at the end. */
  lemma {:induction false} JoinSnoc(sep: string, parts: seq<string>, last: string)
    requires |parts| > 0
    ensures Join(sep, parts + [last]) == Join(sep, parts) + sep + last
    decreases |parts|
  {
    if |parts| == 1 {
      assert (parts + [last])[1..] == [last];
    } else {
      assert (parts + [last])[1..] == parts[1..] + [last];
      JoinSnoc(sep, parts[1..], last);
    }
  }

  lemma JoinOfTwo(sep: string, a: string, b: string)
    ensures Join(sep, [a, b]) == a + sep + b
  {
    assert [a, b][1..] == [b];
  }

  lemma JoinOfThree(sep: string, a: string, b: string, c: string)
    ensures Join(sep, [a, b, c]) == a + sep + b + sep + c
  {
    assert [a, b, c][1..] == [b, c];
    JoinOfTwo(sep, b, c);
  }

  lemma JoinOfFour(sep: string, a: string, b: string, c: string, d: string)
    ensures Join(sep, [a, b, c, d]) == a + sep + b + sep + c + sep + d
  {
    assert [a, b, c, d][1..] == [b, c, d];
    JoinOfThree(sep, b, c, d);
  }

  // ---------------------------------------------------------------------------
  // string.Replace with a one-character pattern

  /** `s.Replace(c.ToString(), r)`: every occurrence of `c` replaced by `r`,
      every other character kept, in order. */
  function ReplaceChar(s: string, c: char, r: string): string
    decreases |s|
  {
    if s == [] then []
    else (if s[0] == c then r else [s[0]]) + ReplaceChar(s[1..], c, r)
  }

  /** Replacing works character by character, so it distributes over `+`. */
  lemma {:induction false} ReplaceCharAppend(a: string, b: string, c: char, r: string)
    ensures ReplaceChar(a + b, c, r) == ReplaceChar(a, c, r) + ReplaceChar(b, c, r)
    decreases |a|
  {
    if a != [] {
      assert (a + b)[1..] == a[1..] + b;
      ReplaceCharAppend(a[1..], b, c, r);
    } else {
      assert a + b == b;
    }
  }

  /** A string without the pattern character is left unchanged. */
  lemma {:induction false} ReplaceCharAbsent(s: string, c: char, r: string)
    requires c !in s
    ensures ReplaceChar(s, c, r) == s
    decreases |s|
  {
    if s != [] {
      assert s[0] != c;
      assert c !in s[1..];
      ReplaceCharAbsent(s[1..], c, r);
    }
  }

  // ---------------------------------------------------------------------------
  // string.Split on one character

  /** Index of the first occurrence of `c` in `s`, or `|s|` when there is none. */
  function IndexOf(s: string, c: char): (i: nat)
    ensures i <= |s|
    ensures i < |s| ==> s[i] == c
    ensures c !in s[..i]
    decreases |s|
  {
    if s == [] then 0
    else if s[0] == c then 0
    else 1 + IndexOf(s[1..], c)
  }

  /** The first occurrence of `c` in `a + [c] + b` is the one after `a`,
      when `a` does not contain `c`. */
  lemma {:induction false} IndexOfAfter(a: string, c: char, b: string)
    requires c !in a
    ensures IndexOf(a + [c] + b, c) == |a|
    decreases |a|
  {
    if a != [] {
      assert (a + [c] + b)[1..] == a[1..] + [c] + b;
      IndexOfAfter(a[1..], c, b);
    }
  }

  /** `s.Split(c)`: the maximal pieces of `s` between occurrences of `c`;
      there is always at least one piece. */
  function Split(s: string, c: char): (pieces: seq<string>)
    ensures |pieces| > 0
    decreases |s|
  {
    var i := IndexOf(s, c);
    if i == |s| then [s] else [s[..i]] + Split(s[i + 1..], c)
  }

  /** Splitting undoes joining with the same one-character separator, when no
      part contains the separator. */
  lemma {:induction false} SplitJoin(parts: seq<string>, c: char)
    requires |parts| > 0
    requires forall k :: 0 <= k < |parts| ==> c !in parts[k]
    ensures Split(Join([c], parts), c) == parts
    decreases |parts|
  {
    if |parts| == 1 {
      assert IndexOf(parts[0], c) == |parts[0]|;
    } else {
      var rest := Join([c], parts[1..]);
      assert Join([c], parts) == parts[0] + [c] + rest;
      IndexOfAfter(parts[0], c, rest);
      var s := parts[0] + [c] + rest;
      assert s[..|parts[0]|] == parts[0];
      assert s[|parts[0]| + 1..] == rest;
      SplitJoin(parts[1..], c);
      assert [parts[0]] + parts[1..] == parts;
    }
  }

  /** Joining the pieces back with the separator gives the original string. */
  lemma {:induction false} JoinSplit(s: string, c: char)
    ensures Join([c], Split(s, c)) == s
    decreases |s|
  {
    var i := IndexOf(s, c);
    if i < |s| {
      var rest := s[i + 1..];
      JoinSplit(rest, c);
      var pieces := Split(rest, c);
      assert Split(s, c) == [s[..i]] + pieces;
      assert ([s[..i]] + pieces)[1..] == pieces;
      assert s == s[..i] + [c] + rest;
    }
  }

  /** The last element of a non-empty sequence (LINQ's `Last()`). */
  function Last<T>(xs: seq<T>): T
    requires |xs| > 0
  {
    xs[|xs| - 1]
  }

  /** The last piece of `s.Split(c)` is the suffix of `s` after its last `c`
      (all of `s` when it has none): it has no `c`, and what precedes it is
      empty or ends in `c`. */
  lemma {:induction false} LastPieceIsSuffix(s: string, c: char)
    ensures SuffixAfterLast(s, c, Last(Split(s, c)))
    decreases |s|
  {
    var i := IndexOf(s, c);
    if i == |s| {
      LastPieceWhole(s, c);
    } else {
      LastPieceIsSuffix(s[i + 1..], c);
      LastPieceStep(s, c, i, s[i + 1..]);
    }
  }

  /** The inductive step: what holds of the text after the first `c` holds
      of the whole string. */
  lemma LastPieceStep(s: string, c: char, i: nat, rest: string)
    requires i == IndexOf(s, c) && i < |s| && rest == s[i + 1..]
    requires SuffixAfterLast(rest, c, Last(Split(rest, c)))
    ensures SuffixAfterLast(s, c, Last(Split(s, c)))
  {
    var pieces := Split(rest, c);
    SplitUnfold(s, c);
    LastOfCons(s[..i], pieces);
    SuffixAfterStep(s, c, i, Last(pieces));
  }

  /** A suffix after the last `c` of `s[i + 1..]` is one of `s`, when `s[i]`
      is `c`. */
  lemma SuffixAfterStep(s: string, c: char, i: nat, seg: string)
    requires i < |s| && s[i] == c
    requires SuffixAfterLast(s[i + 1..], c, seg)
    ensures SuffixAfterLast(s, c, seg)
  {
    SuffixStep(s, i, c, seg);
  }

  /** The last piece of `s.Split(c)` has no `c` in it. */
  lemma LastPieceHasNoSeparator(s: string, c: char)
    ensures c !in Last(Split(s, c))
  {
    LastPieceIsSuffix(s, c);
  }

  /** `seg` has no `c`, ends `s`, and is all of `s` or follows a `c`. */
  predicate SuffixAfterLast(s: string, c: char, seg: string) {
    && c !in seg
    && |seg| <= |s|
    && s[|s| - |seg|..] == seg
    && (|seg| == |s| || s[|s| - |seg| - 1] == c)
  }

  lemma LastPieceWhole(s: string, c: char)
    requires IndexOf(s, c) == |s|
    ensures SuffixAfterLast(s, c, Last(Split(s, c)))
  {
    SplitUnfold(s, c);
    assert s[..|s|] == s;
    assert s[|s| - |s|..] == s;
  }

  lemma LastPieceAfter(s: string, c: char, i: nat, pieces: seq<string>)
    requires i < |s| && s[i] == c && |pieces| > 0
    requires SuffixAfterLast(s[i + 1..], c, Last(pieces))
    ensures SuffixAfterLast(s, c, Last([s[..i]] + pieces))
  {
    LastOfCons(s[..i], pieces);
    SuffixStep(s, i, c, Last(pieces));
  }

  lemma SplitUnfold(s: string, c: char)
    ensures IndexOf(s, c) == |s| ==> Split(s, c) == [s]
    ensures IndexOf(s, c) < |s| ==> Split(s, c) == [s[..IndexOf(s, c)]] + Split(s[IndexOf(s, c) + 1..], c)
  {
  }

  lemma LastOfCons<T>(x: T, xs: seq<T>)
    requires |xs| > 0
    ensures Last([x] + xs) == Last(xs)
  {
  }

  /** A suffix of `s[i + 1..]` that is all of it or follows a `c` is such a
      suffix of `s`, when `s[i]` is `c`. */
  lemma SuffixStep(s: string, i: nat, c: char, seg: string)
    requires i < |s| && s[i] == c
    requires var rest := s[i + 1..];
      && |seg| <= |rest| && rest[|rest| - |seg|..] == seg
      && (|seg| == |rest| || rest[|rest| - |seg| - 1] == c)
    ensures |seg| <= |s| && s[|s| - |seg|..] == seg
    ensures |seg| == |s| || s[|s| - |seg| - 1] == c
  {
    var rest := s[i + 1..];
    var k := |rest| - |seg|;
    assert s[i + 1 + k..] == rest[k..];
    if |seg| < |rest| {
      assert s[i + 1 + k - 1] == rest[k - 1];
    }
  }

  // ---------------------------------------------------------------------------
  // int.ToString() and its inverse

  predicate IsDigit(ch: char) {
    '0' <= ch <= '9'
  }

  predicate AllDigits(s: string) {
    forall k :: 0 <= k < |s| ==> IsDigit(s[k])
  }

  function DigitChar(d: nat): (ch: char)
    requires d < 10
    ensures IsDigit(ch)
  {
    (d + '0' as int) as char
  }

  /** Decimal digits of a natural number, most significant first, no
      leading zeros. */
  function NatToString(n: nat): (s: string)
    ensures |s| > 0 && AllDigits(s)
    decreases n
  {
    if n < 10 then [DigitChar(n)] else NatToString(n / 10) + [DigitChar(n % 10)]
  }

  /** `i.ToString()` in the invariant culture: a `-` sign for negative values,
      then the decimal digits. */
  function IntToString(i: int): (s: string)
    ensures |s| > 0
    ensures forall k :: 0 <= k < |s| ==> IsDigit(s[k]) || (k == 0 && s[k] == '-')
    ensures s[0] == '-' <==> i < 0
  {
    if i < 0 then "-" + NatToString(-i) else NatToString(i)
  }

  function ParseNat(s: string): nat
    requires |s| > 0 && AllDigits(s)
    decreases |s|
  {
    var d := s[|s| - 1] as int - '0' as int;
    if |s| == 1 then d else ParseNat(s[..|s| - 1]) * 10 + d
  }

  /** Reads back a decimal integer with an optional leading `-`. */
  function ParseInt(s: string): Option<int> {
    if |s| > 1 && s[0] == '-' && AllDigits(s[1..]) then Some(-(ParseNat(s[1..]) as int))
    else if |s| > 0 && AllDigits(s) then Some(ParseNat(s))
    else None
  }

  lemma {:induction false} ParseNatToString(n: nat)
    ensures ParseNat(NatToString(n)) == n
    decreases n
  {
    if n >= 10 {
      ParseNatToString(n / 10);
      var s := NatToString(n);
      assert s[..|s| - 1] == NatToString(n / 10);
    }
  }

  /** The decimal rendering of an integer reads back as that integer. */
  lemma IntToStringRoundTrip(i: int)
    ensures ParseInt(IntToString(i)) == Some(i)
  {
    var s := IntToString(i);
    if i < 0 {
      assert s[1..] == NatToString(-i);
      ParseNatToString(-i);
    } else {
      ParseNatToString(i);
    }
  }
}

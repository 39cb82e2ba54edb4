/**
 * `_parse_24_ints_from_text` of `corrected_mqtt_lstm_predictor.py`: the
 * tolerant reader of a 24-value schedule written as free text.  Brackets
 * become spaces, the text is split on runs of commas and whitespace, and
 * the first 24 tokens that are exactly "0" or "1" are kept.
 */
module CorrectedParse {
  import opened Vectors

  // ---------------------------------------------------------------------
  // Tokens

  /**
   * The whitespace characters of `\s` (and of `str.strip()`) in the ASCII
   * range: space, tab through carriage return (U+0009 to U+000D) and the
   * four information separators U+001C to U+001F.
   */
  predicate IsSpace(c: char)
  {
    c == ' ' || '\t' <= c <= '\r' || '\U{001C}' <= c <= '\U{001F}'
  }

  /** A character of the splitting pattern `[,\s]+`. */
  predicate IsSeparator(c: char)
  {
    c == ',' || IsSpace(c)
  }

  /** `txt.replace("[", " ").replace("]", " ")`. */
  function Unbracket(txt: string): (r: string)
    ensures |r| == |txt|
    ensures forall i :: 0 <= i < |txt| ==> r[i] == if txt[i] == '[' || txt[i] == ']' then ' ' else txt[i]
  {
    seq(|txt|, i requires 0 <= i < |txt| => if txt[i] == '[' || txt[i] == ']' then ' ' else txt[i])
  }

  /** The end of the run of non-separator characters that starts at `i`. */
  function RunEnd(s: string, i: nat): (j: nat)
    requires i <= |s|
    ensures i <= j <= |s|
    ensures forall k :: i <= k < j ==> !IsSeparator(s[k])
    ensures j == |s| || IsSeparator(s[j])
    decreases |s| - i
  {
    if i == |s| || IsSeparator(s[i]) then i else RunEnd(s, i + 1)
  }

  /**
   * `re.split(r"[,\s]+", txt.strip())` with its empty strings dropped: the
   * maximal runs of characters that are neither commas nor whitespace.  The
   * source skips empty tokens in its loop, so dropping them here changes
   * nothing.
   */
  function Tokens(s: string): (ts: seq<string>)
    ensures forall k :: 0 <= k < |ts| ==> ts[k] != []
    decreases |s|
  {
    if s == [] then []
    else if IsSeparator(s[0]) then Tokens(s[1..])
    else
      var n := RunEnd(s, 0);
      [s[..n]] + Tokens(s[n..])
  }

  // ---------------------------------------------------------------------
  // The binary tokens

  /** The value a token contributes: `int(t)` for "0" and "1", nothing for any other token. */
  function BitOf(t: string): (bs: seq<int>)
    ensures |bs| <= 1 && IsBinary(bs)
    ensures bs == [] <==> t != "0" && t != "1"
  {
    if t == "0" then [0] else if t == "1" then [1] else []
  }

  /** The values of the first `n` tokens that are "0" or "1", in order. */
  function Bits(ts: seq<string>, n: nat): (bs: seq<int>)
    requires n <= |ts|
    ensures IsBinary(bs) && |bs| <= n
  {
    if n == 0 then [] else Bits(ts, n - 1) + BitOf(ts[n - 1])
  }

  /** The values the parser reads: the first 24 binary tokens, or `None` when there are fewer. */
  function ParsedBits(txt: string): (r: Option<seq<int>>)
    ensures r.Some? ==> |r.value| == HoursPerDay && IsBinary(r.value)
  {
    var ts := Tokens(Unbracket(txt));
    var bs := Bits(ts, |ts|);
    if |bs| >= HoursPerDay then Some(bs[..HoursPerDay]) else None
  }

  /** The binary values of fewer tokens are a prefix of those of more tokens. */
  lemma {:induction false} BitsPrefix(ts: seq<string>, m: nat, n: nat)
    requires m <= n <= |ts|
    ensures |Bits(ts, m)| <= |Bits(ts, n)|
    ensures Bits(ts, n)[..|Bits(ts, m)|] == Bits(ts, m)
    decreases n
  {
    var q := Bits(ts, m);
    if m == n {
      assert q[..|q|] == q;
    } else {
      BitsPrefix(ts, m, n - 1);
      var p := Bits(ts, n - 1);
      var r := Bits(ts, n);
      assert r == p + BitOf(ts[n - 1]);
      assert r[..|q|] == p[..|q|];
    }
  }

  /** The binary values of the first `n` tokens depend on those tokens only. */
  lemma {:induction false} BitsSameTokens(ts: seq<string>, us: seq<string>, n: nat)
    requires n <= |ts| && n <= |us|
    requires forall k :: 0 <= k < n ==> ts[k] == us[k]
    ensures Bits(ts, n) == Bits(us, n)
    decreases n
  {
    if n > 0 {
      BitsSameTokens(ts, us, n - 1);
    }
  }

  /**
   * `_parse_24_ints_from_text`: walk the tokens, skip every one that is not
   * "0" or "1" (the empty tokens among them), append the value of the rest,
   * and stop at 24 values.
   */
  method Parse24IntsFromText(txt: string) returns (r: Option<seq<int>>)
    ensures r == ParsedBits(txt)
  {
    var tokens := Tokens(Unbracket(txt));
    var vals: seq<int> := [];
    for i := 0 to |tokens|
      invariant vals == Bits(tokens, i) && |vals| < HoursPerDay
    {
      var t := tokens[i];
      if t != "0" && t != "1" {
        continue;
      }
      vals := vals + [if t == "0" then 0 else 1];
      if |vals| == HoursPerDay {
        BitsPrefix(tokens, i + 1, |tokens|);
        return Some(vals);
      }
    }
    r := None;
  }

  // ---------------------------------------------------------------------
  // Reading back a printed schedule

  /** The digit a binary value prints as. */
  function Digit(b: int): (c: char)
  {
    if b == 1 then '1' else '0'
  }

  /** The items of `str(list)`: the digits separated by ", ". */
  function Items(v: seq<int>): (s: string)
    decreases |v|
  {
    if |v| <= 1 then (if v == [] then "" else [Digit(v[0])])
    else [Digit(v[0])] + ", " + Items(v[1..])
  }

  /** `str(v)` for a list of binary ints: "[0, 1, ...]". */
  function Render(v: seq<int>): string
  {
    "[" + Items(v) + "]"
  }

  /** The one-character tokens a printed list splits into. */
  function DigitTokens(v: seq<int>): (ts: seq<string>)
    ensures |ts| == |v|
    ensures forall k :: 0 <= k < |v| ==> ts[k] == [Digit(v[k])]
  {
    seq(|v|, k requires 0 <= k < |v| => [Digit(v[k])])
  }

  /** A single digit followed by a separator is one token. */
  lemma TokensDigit(d: char, sep: char, rest: string)
    requires !IsSeparator(d) && IsSeparator(sep)
    ensures Tokens([d, sep] + rest) == [[d]] + Tokens(rest)
  {
    var s := [d, sep] + rest;
    assert RunEnd(s, 1) == 1;
    assert s[..1] == [d];
    assert s[1..][1..] == rest;
  }

  /** An information separator such as U+001C splits tokens, as `\s` does. */
  lemma InformationSeparatorSplits()
    ensures Tokens(['1', '\U{001C}', '0']) == ["1", "0"]
  {
    var z := "0";
    TokensDigit('1', '\U{001C}', z);
    assert ['1', '\U{001C}', '0'] == ['1', '\U{001C}'] + z;
    assert RunEnd(z, 0) == 1;
    assert z[..1] == "0" && z[1..] == [];
    assert Tokens(z) == ["0"];
  }

  /** The last printed item, a space, then any text. */
  lemma TokensOfLastItem(v: seq<int>, tail: string)
    requires |v| == 1
    ensures Tokens(Items(v) + " " + tail) == [[Digit(v[0])]] + Tokens(tail)
  {
    var d := Digit(v[0]);
    assert Items(v) + " " + tail == [d, ' '] + tail;
    TokensDigit(d, ' ', tail);
  }

  /** A printed item followed by ", " is one token, and the text goes on after the separator. */
  lemma TokensOfNextItem(v: seq<int>, tail: string)
    requires |v| > 1
    ensures Tokens(Items(v) + " " + tail) == [[Digit(v[0])]] + Tokens(Items(v[1..]) + " " + tail)
  {
    var d := Digit(v[0]);
    var more := Items(v[1..]) + " " + tail;
    assert Items(v) + " " + tail == [d, ','] + ([' '] + more);
    TokensDigit(d, ',', [' '] + more);
    assert ([' '] + more)[1..] == more;
  }

  /** The digit tokens of a list are those of its head, then those of its tail. */
  lemma DigitTokensCons(v: seq<int>)
    requires v != []
    ensures DigitTokens(v) == [[Digit(v[0])]] + DigitTokens(v[1..])
  {
  }

  /** The printed items, a space, then any text: the digits come out first, each as its own token. */
  lemma {:induction false} TokensOfItems(v: seq<int>, tail: string)
    requires v != []
    ensures Tokens(Items(v) + " " + tail) == DigitTokens(v) + Tokens(tail)
    decreases |v|
  {
    var head := [[Digit(v[0])]];
    DigitTokensCons(v);
    if |v| == 1 {
      TokensOfLastItem(v, tail);
      assert DigitTokens(v) == head;
    } else {
      TokensOfNextItem(v, tail);
      TokensOfItems(v[1..], tail);
      assert head + (DigitTokens(v[1..]) + Tokens(tail)) == (head + DigitTokens(v[1..])) + Tokens(tail);
    }
  }

  /** Replacing the brackets of a printed list leaves its items between two spaces. */
  lemma UnbracketRender(v: seq<int>, tail: string)
    ensures Unbracket(Render(v) + tail) == " " + Items(v) + " " + Unbracket(tail)
  {
    var s := Render(v) + tail;
    var t := " " + Items(v) + " " + Unbracket(tail);
    forall i | 0 <= i < |s|
      ensures Unbracket(s)[i] == t[i]
    {
      if 1 <= i <= |Items(v)| {
        ItemsHaveNoBrackets(v, i - 1);
      }
    }
  }

  /** The items of a printed list hold only digits, commas and spaces. */
  lemma {:induction false} ItemsHaveNoBrackets(v: seq<int>, i: int)
    requires 0 <= i < |Items(v)|
    ensures Items(v)[i] != '[' && Items(v)[i] != ']'
    decreases |v|
  {
    if |v| > 1 && i >= 3 {
      ItemsHaveNoBrackets(v[1..], i - 3);
    }
  }

  /** Reading the digits of a printed binary list gives the list back. */
  lemma {:induction false} BitsOfDigits(v: seq<int>, n: nat)
    requires IsBinary(v) && n <= |v|
    ensures Bits(DigitTokens(v), n) == v[..n]
    decreases n
  {
    if n > 0 {
      BitsOfDigits(v, n - 1);
      assert v[n - 1] == 0 || v[n - 1] == 1;
      assert v[..n] == v[..n - 1] + [v[n - 1]];
    }
  }

  /**
   * Round trip: a 24-value binary schedule printed as a Python list, with
   * any text after it, reads back as that schedule.
   */
  lemma ParseRender(v: seq<int>, tail: string)
    requires |v| == HoursPerDay && IsBinary(v)
    ensures ParsedBits(Render(v) + tail) == Some(v)
  {
    UnbracketRender(v, tail);
    var s := " " + Items(v) + " " + Unbracket(tail);
    assert s[1..] == Items(v) + " " + Unbracket(tail);
    TokensOfItems(v, Unbracket(tail));
    var digits := DigitTokens(v);
    var ts := Tokens(s);
    assert ts == digits + Tokens(Unbracket(tail));
    BitsSameTokens(ts, digits, HoursPerDay);
    BitsOfDigits(v, HoursPerDay);
    assert v[..HoursPerDay] == v;
    BitsPrefix(ts, HoursPerDay, |ts|);
  }
}

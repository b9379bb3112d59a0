/** How Python renders a string key inside a KeyError message: `str` of a
    KeyError is the `repr` of its key, quoted and escaped. */
module Quoting {

  /** `repr(s)`: single quotes, unless the text holds a single quote and no
      double quote; the chosen quote and the backslash are escaped, as are
      tab, newline, carriage return and the other ASCII control characters. */
  function Repr(s: string): string
  {
    var quote := QuoteFor(s);
    [quote] + Escaped(s, quote) + [quote]
  }

  function QuoteFor(s: string): (quote: char)
    ensures quote == '"' <==> '\'' in s && '"' !in s
    ensures quote == '"' || quote == '\''
  {
    if '\'' in s && '"' !in s then '"' else '\''
  }

  /** Each character escaped, in order. */
  function Escaped(s: string, quote: char): string
  {
    Concat(seq(|s|, i requires 0 <= i < |s| => EscapedChar(s[i], quote)))
  }

  function Concat(parts: seq<string>): string
  {
    if parts == [] then [] else parts[0] + Concat(parts[1..])
  }

  lemma EscapedCons(s: string, quote: char)
    requires s != []
    ensures Escaped(s, quote) == EscapedChar(s[0], quote) + Escaped(s[1..], quote)
  {
    var parts := seq(|s|, i requires 0 <= i < |s| => EscapedChar(s[i], quote));
    assert parts[1..] == seq(|s| - 1, i requires 0 <= i < |s| - 1 => EscapedChar(s[1..][i], quote));
  }

  /** A character that repr writes as itself. */
  predicate Plain(c: char, quote: char)
  {
    c != quote && c != '\\' && 32 <= c as int && c as int != 127
  }

  function EscapedChar(c: char, quote: char): (e: string)
    ensures Plain(c, quote) <==> e == [c]
    ensures 1 <= |e| <= 4
  {
    if c == quote || c == '\\' then ['\\', c]
    else if c == '\t' then "\\t"
    else if c == '\n' then "\\n"
    else if c == '\r' then "\\r"
    else if c as int < 32 || c as int == 127 then ['\\', 'x', HexDigit(c as int / 16), HexDigit(c as int % 16)]
    else [c]
  }

  function HexDigit(n: nat): char
    requires n < 16
  {
    "0123456789abcdef"[n]
  }

  function HexValue(c: char): nat
  {
    if '0' <= c <= '9' then c as int - '0' as int
    else if 'a' <= c <= 'f' then c as int - 'a' as int + 10
    else 0
  }

  /** Reads an escaped text back: the inverse of Escaped. */
  function Unescape(e: string): string
    decreases |e|
  {
    if e == [] then []
    else if e[0] == '\\' && |e| >= 4 && e[1] == 'x' then
      [((HexValue(e[2]) * 16 + HexValue(e[3])) % 128) as char] + Unescape(e[4..])
    else if e[0] == '\\' && |e| >= 2 then
      (if e[1] == 't' then "\t" else if e[1] == 'n' then "\n" else if e[1] == 'r' then "\r" else [e[1]])
        + Unescape(e[2..])
    else [e[0]] + Unescape(e[1..])
  }

  lemma HexRoundTrip(n: nat)
    requires n < 16
    ensures HexValue(HexDigit(n)) == n
  {
  }

  /** One escaped character followed by any escaped rest reads back as the
      character followed by the rest. */
  lemma UnescapeChar(c: char, quote: char, rest: string)
    requires quote == '"' || quote == '\''
    ensures Unescape(EscapedChar(c, quote) + rest) == [c] + Unescape(rest)
  {
    var e := EscapedChar(c, quote);
    if c == quote || c == '\\' || c == '\t' || c == '\n' || c == '\r' {
      assert (e + rest)[2..] == rest;
    } else if c as int < 32 || c as int == 127 {
      var n := c as int;
      HexRoundTrip(n / 16);
      HexRoundTrip(n % 16);
      assert (e + rest)[4..] == rest;
      assert (HexValue(e[2]) * 16 + HexValue(e[3])) % 128 == n;
    } else {
      assert (e + rest)[1..] == rest;
    }
  }

  /** Unescape undoes Escaped. */
  lemma {:induction false} EscapedRoundTrip(s: string, quote: char)
    requires quote == '"' || quote == '\''
    ensures Unescape(Escaped(s, quote)) == s
    decreases |s|
  {
    if s != [] {
      EscapedCons(s, quote);
      UnescapeChar(s[0], quote, Escaped(s[1..], quote));
      EscapedRoundTrip(s[1..], quote);
    }
  }

  /** The text between the quotes of `repr(s)` reads back as `s`. */
  lemma ReprRoundTrip(s: string)
    ensures |Repr(s)| >= 2 && Repr(s)[0] == Repr(s)[|Repr(s)| - 1] == QuoteFor(s)
    ensures Unescape(Repr(s)[1..|Repr(s)| - 1]) == s
  {
    var q := QuoteFor(s);
    assert Repr(s)[1..|Repr(s)| - 1] == Escaped(s, q);
    EscapedRoundTrip(s, q);
  }

  /** A text of plain characters is written as itself. */
  lemma {:induction false} EscapedPlain(s: string, quote: char)
    requires forall i :: 0 <= i < |s| ==> Plain(s[i], quote)
    ensures Escaped(s, quote) == s
    decreases |s|
  {
    if s != [] {
      EscapedCons(s, quote);
      EscapedPlain(s[1..], quote);
    } else {
      assert Escaped(s, quote) == Concat([]);
    }
  }

  /** A key with no quote, backslash or control character is rendered
      between single quotes as it is. */
  lemma ReprPlain(s: string)
    requires forall i :: 0 <= i < |s| ==> Plain(s[i], '\'')
    ensures Repr(s) == "'" + s + "'"
  {
    assert '\'' !in s;
    EscapedPlain(s, '\'');
  }

  /** A key holding a single quote but no double quote is rendered between
      double quotes, its single quote unescaped. */
  lemma ReprApostrophe()
    ensures Repr("it's") == "\"it's\""
  {
    assert "it's"[2] == '\'';
    EscapedPlain("it's", '"');
  }
}

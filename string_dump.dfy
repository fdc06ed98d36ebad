/**
 * Ruby's `String#dump` for a UTF-8 string: the string-value rendering of both value codecs.
 * The result is double-quoted; `"` and `\` are backslash-escaped, the control characters with
 * a short form use it (\n \r \t \f \v \b \a \e), `#` is escaped before `$`, `@` or `{`, other
 * printable ASCII is kept, other ASCII becomes \xHH and any other character \uHHHH or \u{H...}.
 */
module StringDump {
  import opened Wrappers

  function HexDigit(d: nat): char
    requires d < 16
  {
    if d < 10 then (48 + d) as char else (55 + d) as char
  }

  predicate IsHexDigit(c: char)
  {
    '0' <= c <= '9' || 'A' <= c <= 'F'
  }

  function HexValue(c: char): nat
    requires IsHexDigit(c)
  {
    if c <= '9' then c as int - 48 else c as int - 55
  }

  /** `n` as exactly `width` upper-case hex digits (`%0<width>X` for `n < 16^width`). */
  function Hex(n: nat, width: nat): (r: string)
    ensures |r| == width
    ensures forall i | 0 <= i < |r| :: IsHexDigit(r[i])
  {
    if width == 0 then "" else Hex(n / 16, width - 1) + [HexDigit(n % 16)]
  }

  /** `n` as upper-case hex digits without leading zeros (`%X`). */
  function HexMin(n: nat): (r: string)
    ensures |r| > 0
    ensures forall i | 0 <= i < |r| :: IsHexDigit(r[i])
  {
    if n < 16 then [HexDigit(n)] else HexMin(n / 16) + [HexDigit(n % 16)]
  }

  function ParseHex(s: string): nat
    requires forall i | 0 <= i < |s| :: IsHexDigit(s[i])
  {
    if s == [] then 0 else 16 * ParseHex(s[..|s| - 1]) + HexValue(s[|s| - 1])
  }

  function Power16(k: nat): nat
  {
    if k == 0 then 1 else 16 * Power16(k - 1)
  }

  /** The letter of the short escape of a control character, if it has one. */
  function ControlLetter(c: char): Option<char>
  {
    var n := c as int;
    if n == 0x0A then Some('n')
    else if n == 0x0D then Some('r')
    else if n == 0x09 then Some('t')
    else if n == 0x0C then Some('f')
    else if n == 0x0B then Some('v')
    else if n == 0x08 then Some('b')
    else if n == 0x07 then Some('a')
    else if n == 0x1B then Some('e')
    else None
  }

  /** The control character a short escape letter stands for. */
  function ControlOf(e: char): Option<char>
  {
    if e == 'n' then Some(0x0A as char)
    else if e == 'r' then Some(0x0D as char)
    else if e == 't' then Some(0x09 as char)
    else if e == 'f' then Some(0x0C as char)
    else if e == 'v' then Some(0x0B as char)
    else if e == 'b' then Some(0x08 as char)
    else if e == 'a' then Some(0x07 as char)
    else if e == 'e' then Some(0x1B as char)
    else None
  }

  /** The escape of one character; `next` is the character after it, if any. */
  function EscapeChar(c: char, next: Option<char>): string
  {
    var n := c as int;
    if c == '"' || c == '\\' then ['\\', c]
    else if ControlLetter(c).Some? then ['\\', ControlLetter(c).value]
    else if c == '#' then (if next.Some? && next.value in "$@{" then "\\#" else "#")
    else if 0x20 <= n < 0x7F then [c]
    else if n < 0x80 then "\\x" + Hex(n, 2)
    else if n <= 0xFFFF then "\\u" + Hex(n, 4)
    else "\\u{" + HexMin(n) + "}"
  }

  function Escape(s: string): string
  {
    if s == [] then "" else EscapeChar(s[0], if |s| > 1 then Some(s[1]) else None) + Escape(s[1..])
  }

  /** `String#dump`. */
  function Dump(s: string): string
  {
    "\"" + Escape(s) + "\""
  }

  function CodePoint(n: int): Option<char>
  {
    if 0 <= n < 0xD800 || 0xE000 <= n < 0x11_0000 then Some(n as char) else None
  }

  /** The number of leading hex digits of `t`. */
  function HexRun(t: string): (k: nat)
    ensures k <= |t|
    ensures forall i | 0 <= i < k :: IsHexDigit(t[i])
    ensures k < |t| ==> !IsHexDigit(t[k])
  {
    if t != [] && IsHexDigit(t[0]) then 1 + HexRun(t[1..]) else 0
  }

  /** The character an escape sequence at the start of `t` stands for, and its length. */
  function UnescapeOne(t: string): (r: Option<(char, nat)>)
    requires |t| > 0
    ensures r.Some? ==> 0 < r.value.1 <= |t|
  {
    if t[0] != '\\' then Some((t[0], 1))
    else if |t| < 2 then None
    else
      var e := t[1];
      if e == '"' || e == '\\' || e == '#' then Some((e, 2))
      else if ControlOf(e).Some? then Some((ControlOf(e).value, 2))
      else if e == 'x' then
        if |t| >= 4 && HexRun(t[2..4]) == 2 then
          match CodePoint(ParseHex(t[2..4]))
          case Some(c) => Some((c, 4))
          case None => None
        else None
      else if e == 'u' && |t| > 2 && t[2] == '{' then
        var k := HexRun(t[3..]);
        if 0 < k && 3 + k < |t| && t[3 + k] == '}' then
          match CodePoint(ParseHex(t[3..3 + k]))
          case Some(c) => Some((c, 4 + k))
          case None => None
        else None
      else if e == 'u' then
        if |t| >= 6 && HexRun(t[2..6]) == 4 then
          match CodePoint(ParseHex(t[2..6]))
          case Some(c) => Some((c, 6))
          case None => None
        else None
      else None
  }

  /** Reads the body of a dumped string back; `None` on a malformed escape. */
  function Unescape(t: string): Option<string>
    decreases |t|
  {
    if t == [] then Some("")
    else match UnescapeOne(t)
      case None => None
      case Some((c, k)) =>
        match Unescape(t[k..])
        case None => None
        case Some(rest) => Some([c] + rest)
  }

  /** Reads a dumped string back. */
  function Undump(d: string): Option<string>
  {
    if |d| >= 2 && d[0] == '"' && d[|d| - 1] == '"' then Unescape(d[1..|d| - 1]) else None
  }

  lemma {:induction false} HexRoundTrip(n: nat, width: nat)
    requires n < Power16(width)
    ensures ParseHex(Hex(n, width)) == n
  {
    if width > 0 {
      var r := Hex(n, width);
      assert r[..|r| - 1] == Hex(n / 16, width - 1);
      HexRoundTrip(n / 16, width - 1);
    }
  }

  lemma {:induction false} HexMinRoundTrip(n: nat)
    ensures ParseHex(HexMin(n)) == n
  {
    if n >= 16 {
      var r := HexMin(n);
      assert r[..|r| - 1] == HexMin(n / 16);
      HexMinRoundTrip(n / 16);
    }
  }

  lemma {:induction false} HexRunStops(h: string, rest: string)
    requires forall i | 0 <= i < |h| :: IsHexDigit(h[i])
    requires rest == [] || !IsHexDigit(rest[0])
    ensures HexRun(h + rest) == |h|
  {
    if h != [] {
      assert (h + rest)[1..] == h[1..] + rest;
      HexRunStops(h[1..], rest);
    }
  }

  lemma ControlRoundTrip(c: char)
    requires ControlLetter(c).Some?
    ensures ControlOf(ControlLetter(c).value) == Some(c)
  {
  }

  lemma HexByteReads(c: char, rest: string)
    requires c as int < 0x80
    ensures UnescapeOne("\\x" + Hex(c as int, 2) + rest) == Some((c, 4))
  {
    var t := "\\x" + Hex(c as int, 2) + rest;
    var h := Hex(c as int, 2);
    assert t[2..4] == h;
    HexRunStops(h, []);
    assert h + [] == h;
    HexRoundTrip(c as int, 2);
  }

  lemma HexQuadReads(c: char, rest: string)
    requires c as int <= 0xFFFF
    ensures UnescapeOne("\\u" + Hex(c as int, 4) + rest) == Some((c, 6))
  {
    var t := "\\u" + Hex(c as int, 4) + rest;
    var h := Hex(c as int, 4);
    assert t[2..6] == h;
    HexRunStops(h, []);
    assert h + [] == h;
    HexRoundTrip(c as int, 4);
    assert t[2] != '{';
  }

  lemma HexBracedReads(c: char, rest: string)
    ensures var h := HexMin(c as int);
      UnescapeOne("\\u{" + h + "}" + rest) == Some((c, 4 + |h|))
  {
    var h := HexMin(c as int);
    var t := "\\u{" + h + "}" + rest;
    assert t[3..] == h + "}" + rest;
    HexRunStops(h, "}" + rest);
    assert t[3..3 + |h|] == h;
    assert t[1] == 'u' && t[2] == '{' && t[3 + |h|] == '}';
    HexMinRoundTrip(c as int);
    assert CodePoint(ParseHex(t[3..3 + |h|])) == Some(c);
  }

  /** Escaping one character and reading the escape back gives the character. */
  lemma EscapeCharReads(c: char, next: Option<char>, rest: string)
    ensures var e := EscapeChar(c, next);
      |e| > 0 && UnescapeOne(e + rest) == Some((c, |e|))
  {
    var n := c as int;
    if c == '"' || c == '\\' || ControlLetter(c).Some? || c == '#' || 0x20 <= n < 0x7F {
      ShortEscapeReads(c, next, rest);
    } else if n < 0x80 {
      HexByteReads(c, rest);
    } else if n <= 0xFFFF {
      HexQuadReads(c, rest);
    } else {
      HexBracedReads(c, rest);
    }
  }

  /** The escapes of one or two characters: a quote or backslash, a control letter, `#`, a printable character. */
  lemma ShortEscapeReads(c: char, next: Option<char>, rest: string)
    requires c == '"' || c == '\\' || ControlLetter(c).Some? || c == '#' || 0x20 <= c as int < 0x7F
    ensures var e := EscapeChar(c, next);
      |e| > 0 && UnescapeOne(e + rest) == Some((c, |e|))
  {
    if c == '"' || c == '\\' {
    } else if ControlLetter(c).Some? {
      ControlRoundTrip(c);
    }
  }

  lemma {:induction false} UnescapeEscape(s: string)
    ensures Unescape(Escape(s)) == Some(s)
  {
    if s != [] {
      var next := if |s| > 1 then Some(s[1]) else None;
      var e := EscapeChar(s[0], next);
      EscapeCharReads(s[0], next, Escape(s[1..]));
      assert Escape(s) == e + Escape(s[1..]);
      assert (e + Escape(s[1..]))[|e|..] == Escape(s[1..]);
      UnescapeEscape(s[1..]);
      assert [s[0]] + s[1..] == s;
    }
  }

  /** `String#dump` loses nothing: the dumped text reads back to the original string. */
  lemma DumpRoundTrip(s: string)
    ensures Undump(Dump(s)) == Some(s)
  {
    var d := Dump(s);
    assert d[1..|d| - 1] == Escape(s);
    UnescapeEscape(s);
  }

  /** A dumped string is a single line: every line break is escaped. */
  lemma {:induction false} DumpIsOneLine(s: string)
    ensures '\n' !in Dump(s)
  {
    EscapeIsOneLine(s);
  }

  lemma {:induction false} EscapeIsOneLine(s: string)
    ensures '\n' !in Escape(s)
  {
    if s != [] {
      EscapeIsOneLine(s[1..]);
    }
  }
}

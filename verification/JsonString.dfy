/** JSON string literals as `serde_json` writes and reads them
    (section 7 of RFC 8259). JavaScript's `JSON.stringify` and `JSON.parse` agree
    with it on strings of Unicode scalar values. */
module JsonString {
  import opened Wrappers

  // ----- writing -----

  function HexDigit(n: nat): char
    requires n < 16
  {
    if n < 10 then (n + '0' as int) as char else (n - 10 + 'a' as int) as char
  }

  function EscapeChar(c: char): string {
    if c == '"' then "\\\""
    else if c == '\\' then "\\\\"
    else if c as int == 0x08 then "\\b"
    else if c as int == 0x09 then "\\t"
    else if c as int == 0x0A then "\\n"
    else if c as int == 0x0C then "\\f"
    else if c as int == 0x0D then "\\r"
    else if c as int < 0x20 then "\\u00" + [HexDigit(c as int / 16), HexDigit(c as int % 16)]
    else [c]
  }

  function Escape(s: string): string { if s == "" then "" else EscapeChar(s[0]) + Escape(s[1..]) }

  function Quote(s: string): string { "\"" + Escape(s) + "\"" }

  // ----- reading -----

  function HexValue(c: char): Option<nat> {
    if '0' <= c <= '9' then Some(c as int - '0' as int)
    else if 'a' <= c <= 'f' then Some(c as int - 'a' as int + 10)
    else if 'A' <= c <= 'F' then Some(c as int - 'A' as int + 10)
    else None
  }

  /** The value of the four hexadecimal digits after `\u`. */
  function Hex4(t: string): (r: Option<nat>)
    ensures r.Some? ==> |t| >= 4
  {
    if |t| < 4 then None
    else
      var a, b, c, d := HexValue(t[0]), HexValue(t[1]), HexValue(t[2]), HexValue(t[3]);
      if a.None? || b.None? || c.None? || d.None? then None
      else Some(4096 * a.value + 256 * b.value + 16 * c.value + d.value)
  }

  function SimpleEscape(c: char): Option<char> {
    match c
    case '"' => Some('"')
    case '\\' => Some('\\')
    case '/' => Some('/')
    case 'b' => Some(0x08 as char)
    case 'f' => Some(0x0C as char)
    case 'n' => Some('\n')
    case 'r' => Some('\r')
    case 't' => Some('\t')
    case _ => None
  }

  /** A character and how much text it took; `t` starts at the backslash. */
  function ReadEscape(t: string): (r: Option<(char, nat)>)
    requires t != "" && t[0] == '\\'
    ensures r.Some? ==> 2 <= r.value.1 <= |t|
  {
    if |t| < 2 then None
    else if t[1] != 'u' then
      var c := SimpleEscape(t[1]);
      if c.None? then None else Some((c.value, 2))
    else
      var n := Hex4(t[2..]);
      if n.None? then None
      else if 0xD800 <= n.value < 0xDC00 then
        // a leading surrogate must be followed by a trailing one
        if |t| < 12 || t[6] != '\\' || t[7] != 'u' then None
        else
          var m := Hex4(t[8..]);
          if m.None? || !(0xDC00 <= m.value < 0xE000) then None
          else Some(((0x10000 + 0x400 * (n.value - 0xD800) + (m.value - 0xDC00)) as char, 12))
      else if 0xDC00 <= n.value < 0xE000 || n.value > 0xFFFF then None
      else Some((n.value as char, 6))
  }

  /** What follows the opening quote, up to a closing quote that ends the text. */
  function ReadBody(t: string): (r: Option<string>)
    ensures r.Some? ==> |r.value| < |t|
    decreases |t|
  {
    if t == "" then None
    else if t[0] == '"' then (if |t| == 1 then Some("") else None)
    else if t[0] == '\\' then
      var e := ReadEscape(t);
      if e.None? then None
      else
        var rest := ReadBody(t[e.value.1..]);
        if rest.None? then None else Some([e.value.0] + rest.value)
    else if t[0] as int < 0x20 then None
    else
      var rest := ReadBody(t[1..]);
      if rest.None? then None else Some([t[0]] + rest.value)
  }

  /** A string literal read back; it is always at least the two quotes shorter. */
  function Unquote(t: string): (r: Option<string>)
    ensures r.Some? ==> |r.value| + 2 <= |t|
  {
    if t == "" || t[0] != '"' then None else ReadBody(t[1..])
  }

  // ----- round trip -----

  lemma HexDigitValue(n: nat)
    requires n < 16
    ensures HexValue(HexDigit(n)) == Some(n)
  {
  }

  lemma ControlEscape(c: char, rest: string)
    requires c as int < 0x20 && c as int !in {0x08, 0x09, 0x0A, 0x0C, 0x0D}
    ensures ReadEscape(EscapeChar(c) + rest) == Some((c, 6))
  {
    var n := c as int;
    var t := EscapeChar(c) + rest;
    HexDigitValue(n / 16);
    HexDigitValue(n % 16);
    assert t[2..][0] == '0' && t[2..][1] == '0' && t[2..][2] == HexDigit(n / 16) && t[2..][3] == HexDigit(n % 16);
    assert HexValue('0') == Some(0);
    assert Hex4(t[2..]) == Some(n);
  }

  lemma ShortEscape(c: char, rest: string)
    requires |EscapeChar(c)| == 2
    ensures ReadEscape(EscapeChar(c) + rest) == Some((c, 2))
  {
    assert (EscapeChar(c) + rest)[1] == EscapeChar(c)[1];
  }

  lemma ReadEscaped(c: char, rest: string)
    ensures ReadBody(EscapeChar(c) + rest) ==
      if ReadBody(rest).None? then None else Some([c] + ReadBody(rest).value)
  {
    var e := EscapeChar(c);
    var t := e + rest;
    assert t[|e|..] == rest;
    if e[0] == '\\' {
      if |e| == 6 { ControlEscape(c, rest); } else { ShortEscape(c, rest); }
    }
  }

  lemma {:induction false} EscapeThenRead(s: string)
    ensures ReadBody(Escape(s) + "\"") == Some(s)
  {
    if s == "" {
      assert Escape(s) + "\"" == "\"";
    } else {
      EscapeThenRead(s[1..]);
      assert Escape(s) + "\"" == EscapeChar(s[0]) + (Escape(s[1..]) + "\"");
      ReadEscaped(s[0], Escape(s[1..]) + "\"");
      assert s == [s[0]] + s[1..];
    }
  }

  /** Every string survives being written and read back. */
  lemma QuoteThenUnquote(s: string)
    ensures Unquote(Quote(s)) == Some(s)
  {
    assert Quote(s)[1..] == Escape(s) + "\"";
    EscapeThenRead(s);
  }
}

/** Which texts are read as which JSON string (section 7 of RFC 8259). */
module JsonReading {
  import opened Wrappers
  import opened JsonString

  /** Four hexadecimal digits, in either case, spell the number. */
  ghost predicate HexSpells(w: string, n: int) {
    && |w| == 4 && (forall i :: 0 <= i < 4 ==> HexValue(w[i]).Some?)
    && n == ((HexValue(w[0]).value * 16 + HexValue(w[1]).value) * 16 + HexValue(w[2]).value) * 16 + HexValue(w[3]).value
  }

  /** The value of a hexadecimal digit is the place of the digit, read in lower or upper case. */
  lemma HexDigitRead(c: char, n: nat)
    ensures HexValue(c) == Some(n) <==> n < 16 && (c == "0123456789abcdef"[n] || c == "0123456789ABCDEF"[n])
  {
  }

  /** A character stands for itself unless it is a quote, a backslash or a control. */
  ghost predicate Plain(w: string, c: char) { w == [c] && c != '"' && c != '\\' && c as int >= 0x20 }

  /** The two-character escapes. */
  ghost predicate Short(w: string, c: char) {
    || (w == "\\\"" && c == '"') || (w == "\\\\" && c == '\\') || (w == "\\/" && c == '/')
    || (w == "\\b" && c as int == 8) || (w == "\\t" && c as int == 9) || (w == "\\n" && c as int == 10)
    || (w == "\\f" && c as int == 12) || (w == "\\r" && c as int == 13)
  }

  /** `\u` and four digits for a character of the basic plane, or two of them for the
      surrogate pair of any other (section 3.8 of the Unicode Standard, definition D76). */
  ghost predicate Unicode(w: string, c: char) {
    || (|w| == 6 && w[..2] == "\\u" && HexSpells(w[2..], c as int))
    || (|w| == 12 && w[..2] == "\\u" && w[6..8] == "\\u" && c as int >= 0x10000
        && HexSpells(w[2..6], 0xD800 + (c as int - 0x10000) / 0x400)
        && HexSpells(w[8..], 0xDC00 + (c as int - 0x10000) % 0x400))
  }

  /** `w` is one way to write `c`. */
  ghost predicate Spells(w: string, c: char) { Plain(w, c) || Short(w, c) || Unicode(w, c) }

  /** `t` writes the characters of `s` one by one and ends with a quote. */
  ghost predicate BodySpells(t: string, s: string) {
    if s == "" then t == "\""
    else exists n :: 0 < n <= |t| && Spells(t[..n], s[0]) && BodySpells(t[n..], s[1..])
  }

  lemma Hex4Spells(t: string, n: int)
    ensures Hex4(t) == Some(n) <==> |t| >= 4 && HexSpells(t[..4], n)
  {
  }

  lemma ShortRead(t: string, c: char)
    requires |t| >= 2 && t[0] == '\\' && t[1] != 'u'
    ensures SimpleEscape(t[1]) == Some(c) <==> Short(t[..2], c)
  {
    assert t[..2] == [t[0], t[1]];
  }

  /** An escape is read exactly as one of its spellings. */
  lemma EscapeRead(t: string, c: char, n: nat)
    requires t != "" && t[0] == '\\'
    ensures ReadEscape(t) == Some((c, n)) <==> n <= |t| && (Short(t[..n], c) || Unicode(t[..n], c))
  {
    if |t| >= 2 && t[1] != 'u' {
      ShortRead(t, c);
      assert n >= 2 && n <= |t| ==> t[..n][1] == t[1];
    } else if |t| >= 2 {
      UnicodeRead(t, c, n);
      assert n >= 2 && n <= |t| ==> t[..n][1] == 'u';
    }
  }

  lemma BasicRead(t: string, c: char)
    requires |t| >= 2 && t[0] == '\\' && t[1] == 'u'
    ensures ReadEscape(t) == Some((c, 6)) <==> |t| >= 6 && HexSpells(t[2..6], c as int)
  {
    if |t| >= 6 {
      assert t[2..][..4] == t[2..6];
      if Hex4(t[2..]).Some? { Hex4Spells(t[2..], Hex4(t[2..]).value); }
      Hex4Spells(t[2..], c as int);
    }
  }

  /** The two halves of a surrogate pair and the character they stand for. */
  lemma PairMeans(h: int, l: int, c: char)
    requires 0xD800 <= h < 0xDC00 && 0xDC00 <= l < 0xE000
    ensures (0x10000 + 0x400 * (h - 0xD800) + (l - 0xDC00)) as char == c <==>
      c as int >= 0x10000 && h == 0xD800 + (c as int - 0x10000) / 0x400 && l == 0xDC00 + (c as int - 0x10000) % 0x400
  {
  }

  lemma PairRead(t: string, c: char)
    requires |t| >= 2 && t[0] == '\\' && t[1] == 'u'
    ensures ReadEscape(t) == Some((c, 12)) <==>
      && |t| >= 12 && t[6] == '\\' && t[7] == 'u' && c as int >= 0x10000
      && HexSpells(t[2..6], 0xD800 + (c as int - 0x10000) / 0x400)
      && HexSpells(t[8..12], 0xDC00 + (c as int - 0x10000) % 0x400)
  {
    if |t| >= 12 {
      assert t[2..][..4] == t[2..6] && t[8..][..4] == t[8..12];
      if c as int >= 0x10000 {
        Hex4Spells(t[2..], 0xD800 + (c as int - 0x10000) / 0x400);
        Hex4Spells(t[8..], 0xDC00 + (c as int - 0x10000) % 0x400);
      }
      if Hex4(t[2..]).Some? && Hex4(t[8..]).Some? {
        var h, l := Hex4(t[2..]).value, Hex4(t[8..]).value;
        if 0xD800 <= h < 0xDC00 && 0xDC00 <= l < 0xE000 { PairMeans(h, l, c); }
      }
    }
  }

  lemma UnicodeRead(t: string, c: char, n: nat)
    requires |t| >= 2 && t[0] == '\\' && t[1] == 'u'
    ensures ReadEscape(t) == Some((c, n)) <==> n <= |t| && Unicode(t[..n], c)
  {
    if n == 6 <= |t| {
      BasicRead(t, c);
      assert t[..6][2..] == t[2..6] && t[..6][..2] == [t[0], t[1]];
    } else if n == 12 <= |t| {
      PairRead(t, c);
      assert t[..12][2..6] == t[2..6] && t[..12][8..] == t[8..12];
      assert t[..12][..2] == [t[0], t[1]] && t[..12][6..8] == [t[6], t[7]];
    }
  }

  /** One character is read off the front exactly where a spelling of it stands. */
  lemma CharRead(t: string, c: char, n: nat)
    requires 0 < n <= |t|
    ensures Spells(t[..n], c) <==>
      if t[0] == '\\' then ReadEscape(t) == Some((c, n))
      else n == 1 && c == t[0] && t[0] != '"' && t[0] as int >= 0x20
  {
    if t[0] == '\\' {
      EscapeRead(t, c, n);
    } else {
      assert t[..n][0] == t[0];
      assert n == 1 ==> t[..n] == [t[0]];
    }
  }

  /** A literal's body is read as `s` exactly when it writes the characters of `s`. */
  lemma {:induction false} BodyRead(t: string, s: string)
    ensures ReadBody(t) == Some(s) <==> BodySpells(t, s)
    decreases |t|
  {
    if t != "" && s != "" {
      forall n | 0 < n <= |t|
        ensures Spells(t[..n], s[0]) && BodySpells(t[n..], s[1..]) ==> ReadBody(t) == Some(s)
      {
        CharRead(t, s[0], n);
        BodyRead(t[n..], s[1..]);
        assert s == [s[0]] + s[1..];
      }
      if ReadBody(t) == Some(s) {
        var n := if t[0] == '\\' then ReadEscape(t).value.1 else 1;
        CharRead(t, s[0], n);
        BodyRead(t[n..], s[1..]);
      }
    } else if t != "" && BodySpells(t, s) {
      assert t[0] == '"';
    }
  }

  /** A text is a JSON string literal for `s` exactly when it is a quote and such a body. */
  lemma LiteralRead(t: string, s: string)
    ensures Unquote(t) == Some(s) <==> t != "" && t[0] == '"' && BodySpells(t[1..], s)
  {
    if t != "" { BodyRead(t[1..], s); }
  }

  /** A character is written as itself, by its short escape, or for other controls by four
      lower-case hexadecimal digits; the solidus is not escaped. */
  lemma CharWritten(c: char)
    ensures var w, n := EscapeChar(c), c as int;
      if n in {8, 9, 10, 12, 13, 0x22, 0x5C} then Short(w, c)
      else if n < 0x20 then w == "\\u00" + ["0123456789abcdef"[n / 16], "0123456789abcdef"[n % 16]]
      else w == [c]
  {
    var digits := "0123456789abcdef";
    assert forall k: nat :: k < 16 ==> HexDigit(k) == digits[k];
  }
}

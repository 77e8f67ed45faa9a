/** The character classes the modelled code tests for. */
module Characters {

  /** Rust's `char::is_whitespace` (the Unicode White_Space property). */
  predicate RustSpace(c: char) {
    var n := c as int;
    || 0x09 <= n <= 0x0D || n == 0x20 || n == 0x85 || n == 0xA0 || n == 0x1680
    || 0x2000 <= n <= 0x200A || n == 0x2028 || n == 0x2029 || n == 0x202F || n == 0x205F || n == 0x3000
  }

  /** Rust's `char::is_ascii_whitespace`, which leaves out U+000B. */
  predicate AsciiSpace(c: char) {
    var n := c as int;
    n == 0x09 || n == 0x0A || n == 0x0C || n == 0x0D || n == 0x20
  }

  /** JavaScript's `\s` and `String.prototype.trim`: no U+0085, but U+FEFF. */
  predicate JsSpace(c: char) {
    var n := c as int;
    || 0x09 <= n <= 0x0D || n == 0x20 || n == 0xA0 || n == 0x1680 || n == 0xFEFF
    || 0x2000 <= n <= 0x200A || n == 0x2028 || n == 0x2029 || n == 0x202F || n == 0x205F || n == 0x3000
  }

  /** JavaScript's line terminators, after which a multi-line `^` matches. */
  predicate JsLineEnd(c: char) {
    var n := c as int;
    n == 0x0A || n == 0x0D || n == 0x2028 || n == 0x2029
  }

  /** The 25 characters with the Unicode property White_Space (section 4.8 of the Unicode
      Standard, PropList.txt), of which JavaScript takes all but U+0085 and one more, and the
      ASCII test those below U+0080 but U+000B. */
  lemma WhiteSpace(c: char)
    ensures RustSpace(c) <==> c in {
      '\U{9}', '\U{A}', '\U{B}', '\U{C}', '\U{D}', '\U{20}', '\U{85}', '\U{A0}', '\U{1680}', '\U{2000}', '\U{2001}',
      '\U{2002}', '\U{2003}', '\U{2004}', '\U{2005}', '\U{2006}', '\U{2007}', '\U{2008}', '\U{2009}', '\U{200A}',
      '\U{2028}', '\U{2029}', '\U{202F}', '\U{205F}', '\U{3000}'}
    ensures JsSpace(c) <==> (RustSpace(c) && c != '\U{85}') || c == '\U{FEFF}'
    ensures AsciiSpace(c) <==> RustSpace(c) && c < '\U{80}' && c != '\U{B}'
    ensures JsLineEnd(c) <==> c in {'\n', '\r', '\U{2028}', '\U{2029}'}
  {
    var n := c as int;
    assert 0x2000 <= n <= 0x200A ==> n in {0x2000, 0x2001, 0x2002, 0x2003, 0x2004, 0x2005, 0x2006, 0x2007, 0x2008,
                                           0x2009, 0x200A};
  }
}

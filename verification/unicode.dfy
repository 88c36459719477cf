/**
 Character classification shared by the credential loader and the line
 trimmer. Rust's `char::is_whitespace` and `str::trim` both use the Unicode
 `White_Space` property; this module spells that property out.
 */
module Unicode {

  /**
   The characters with the Unicode `White_Space` property (PropList.txt).
   Among ASCII characters these are space and tab through carriage return;
   no character beyond U+3000 has the property.
   */
  predicate IsWhitespace(c: char)
    ensures c as int < 0x80 ==> (IsWhitespace(c) <==> c == ' ' || '\t' <= c <= '\r')
    ensures IsWhitespace(c) ==> c as int <= 0x3000
  {
    var n := c as int;
    || (0x09 <= n <= 0x0D)   // tab, line feed, vertical tab, form feed, carriage return
    || n == 0x20             // space
    || n == 0x85             // next line
    || n == 0xA0             // no-break space
    || n == 0x1680           // ogham space mark
    || (0x2000 <= n <= 0x200A)
    || n == 0x2028           // line separator
    || n == 0x2029           // paragraph separator
    || n == 0x202F           // narrow no-break space
    || n == 0x205F           // medium mathematical space
    || n == 0x3000           // ideographic space
  }

  /** The complement of `IsWhitespace`: the characters a token keeps. */
  predicate IsVisible(c: char) {
    !IsWhitespace(c)
  }
}

/** Small patterns that several components test texts against. */
module TextPatterns {
  import opened Decimal

  /** White space and line terminators: the characters `\s` matches and `String.prototype.trim` strips. */
  predicate IsSpace(c: char) {
    || c in {'\t', '\n', '\U{000B}', '\U{000C}', '\r', ' ', '\U{00A0}', '\U{1680}', '\U{2028}', '\U{2029}', '\U{202F}', '\U{205F}', '\U{3000}', '\U{FEFF}'}
    || '\U{2000}' <= c <= '\U{200A}'
  }

  /** Nothing is left once the text is trimmed. */
  predicate Blank(s: string) {
    forall i :: 0 <= i < |s| ==> IsSpace(s[i])
  }

  /** A SHA-256 digest in lower-case hexadecimal. */
  predicate ValidHash(s: string) {
    |s| == 64 && forall i :: 0 <= i < |s| ==> 'a' <= s[i] <= 'f' || IsDigit(s[i])
  }
}

// Shared building blocks: the optional-value wrapper and the short-code
// format rule /^[A-Za-z0-9_-]{1,50}$/ that the schema (models/Link.js),
// the validation middleware and the create route all apply.

module Wrappers {

  /** A value that may be absent: JavaScript's `null`/`undefined` is `None`. */
  datatype Option<+T> = None | Some(value: T)

  /** JavaScript truthiness of an optional string: absent and `""` are falsy. */
  predicate Truthy(s: Option<string>)
  {
    s.Some? && s.value != ""
  }
}

module ShortCodes {

  /** Longest short code the format rule admits. */
  const MaxCodeLength: nat := 50

  /** Membership in the character class `[A-Za-z0-9_-]`. */
  predicate IsCodeChar(c: char)
  {
    || ('A' <= c <= 'Z')
    || ('a' <= c <= 'z')
    || ('0' <= c <= '9')
    || c == '_'
    || c == '-'
  }

  /** The whole string matches `^[A-Za-z0-9_-]{1,50}$` (JavaScript's `$`
      without the `m` flag anchors at the very end of the input). */
  predicate IsValidCode(s: string)
  {
    1 <= |s| <= MaxCodeLength && forall i :: 0 <= i < |s| ==> IsCodeChar(s[i])
  }
}

/** NUL-terminated byte strings.  A string is the sequence of its bytes before the
    terminator; reading the terminator itself is allowed, reading past it is not. */
module CStrings {

  datatype Option<+T> = None | Some(value: T)

  type Byte = c: int | 0 < c < 256 witness 1

  type CString = seq<Byte>

  /** The byte a C cursor at offset i sees: 0 at the terminator. */
  function At(s: seq<int>, i: nat): int
    requires i <= |s|
  {
    if i < |s| then s[i] else 0
  }
}

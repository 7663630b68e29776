/** Hexadecimal digits as used by percent-encoding and by JSON `\u` escapes. */
module Hex {

  predicate IsHexDigit(c: char) {
    ('0' <= c <= '9') || ('a' <= c <= 'f') || ('A' <= c <= 'F')
  }

  /** The value of one hexadecimal digit; upper and lower case are equivalent. */
  function DigitValue(c: char): (v: nat)
    requires IsHexDigit(c)
    ensures v < 16
  {
    if '0' <= c <= '9' then c as int - '0' as int
    else if 'a' <= c <= 'f' then c as int - 'a' as int + 10
    else c as int - 'A' as int + 10
  }

  /** The upper-case digit for `v`, as `encodeURIComponent` writes it. */
  function UpperDigit(v: nat): (c: char)
    requires v < 16
    ensures IsHexDigit(c) && DigitValue(c) == v
    ensures !('a' <= c <= 'z')
  {
    if v < 10 then ('0' as int + v) as char else ('A' as int + v - 10) as char
  }

  /** The lower-case digit for `v`, as `JSON.stringify` writes it in `\u00XX`. */
  function LowerDigit(v: nat): (c: char)
    requires v < 16
    ensures IsHexDigit(c) && DigitValue(c) == v
    ensures c != '%'
  {
    if v < 10 then ('0' as int + v) as char else ('a' as int + v - 10) as char
  }
}

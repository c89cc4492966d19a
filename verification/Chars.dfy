/** Characters. */
module Chars {

  const DIGITS := "0123456789"
  const XDIGITS := "0123456789abcdef"

  predicate IsDigit(c: char) { '0' <= c <= '9' }

  /** c_tolower: upper-case ASCII letters become lower case. */
  function LowerChar(c: char): char {
    if 'A' <= c <= 'Z' then (c as int - 'A' as int + 'a' as int) as char else c
  }

  function LowerCase(s: string): (r: string)
    ensures |r| == |s|
  {
    seq(|s|, i requires 0 <= i < |s| => LowerChar(s[i]))
  }
}

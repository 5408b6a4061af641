/** The escapes Python's JSON encoder writes. */
module JsonEscapes {
  import opened Wrappers

  function HexDigit(v: int): (c: char)
    requires 0 <= v < 16
    ensures HexValue(c) == v
  {
    if v < 10 then ('0' as int + v) as char else ('a' as int + v - 10) as char
  }

  function HexValue(c: char): int {
    if '0' <= c <= '9' then c as int - '0' as int else c as int - 'a' as int + 10
  }

  /** The short escapes, by the letter that follows the backslash. */
  function ShortEscape(code: int): Option<char> {
    if code == 0x5C then Some('\\') else if code == 0x22 then Some('"')
    else if code == 0x08 then Some('b') else if code == 0x09 then Some('t') else if code == 0x0A then Some('n')
    else if code == 0x0C then Some('f') else if code == 0x0D then Some('r') else None
  }
}

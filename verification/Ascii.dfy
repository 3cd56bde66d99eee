/** Character classes and case folding of ASCII builds (global.c). Strings are the bytes before
    the terminating NUL. */
module Ascii {

  /** sqlite3UpperToLower: just the capital letters change. */
  function Lower(c: char): (l: char)
    ensures l != c <==> 'A' <= c <= 'Z'
    ensures l as int == c as int || l as int == c as int + ('a' as int - 'A' as int)
  {
    if 'A' <= c <= 'Z' then (c as int + 32) as char else c
  }

  function Lowered(s: string): (r: string)
    ensures |r| == |s| && forall i :: 0 <= i < |s| ==> r[i] == Lower(s[i])
  {
    seq(|s|, i requires 0 <= i < |s| => Lower(s[i]))
  }

  /** sqlite3CtypeMap[c] & 0x46 */
  predicate IdChar(c: char) {
    'a' <= c <= 'z' || 'A' <= c <= 'Z' || '0' <= c <= '9' || c == '_' || c == '$' || c as int >= 0x80
  }
}

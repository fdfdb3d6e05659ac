/** PHP's trimming of strings. */
module PhpStrings {
  predicate TrimChar(c: char) {
    c == ' ' || c == '\t' || c == '\n' || c == '\r' || c == '\0' || c == 11 as char
  }

  function LTrim(s: string): string {
    if s != "" && TrimChar(s[0]) then LTrim(s[1..]) else s
  }

  function RTrim(s: string): (r: string)
    ensures r <= s
  {
    if s != "" && TrimChar(s[|s| - 1]) then RTrim(s[..|s| - 1]) else s
  }
}

/**
  Case folding of titles and usernames.  The source compares names with
  Python's `str.lower()`; the model lower-cases the ASCII letters and leaves
  every other character as it is.
*/
module Text {

  function LowerChar(c: char): char
  {
    if 'A' <= c <= 'Z' then (c as int + 32) as char else c
  }

  function Lower(s: string): string
  {
    if s == [] then [] else [LowerChar(s[0])] + Lower(s[1..])
  }
}

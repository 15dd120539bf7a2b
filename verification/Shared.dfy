// Definitions used by several components of the shell.
module Shared {

  datatype Option<+T> = None | Some(value: T)

  datatype Result<+T, +E> = Success(value: T) | Failure(error: E)

  // A shell character holds an input byte and, in its top bit, whether that
  // byte was quoted.
  const BYTE := 0x100
  const QUOTE := 0x8000

  function Quoted(c: char): char {
    if c as int < BYTE then (c as int + QUOTE) as char else c
  }

  predicate IsQuoted(c: char) {
    QUOTE <= c as int < QUOTE + BYTE
  }

  function Trim(c: char): char {
    if IsQuoted(c) then (c as int - QUOTE) as char else c
  }

  // The first character of a word, NUL for the empty word.
  function First(w: string): char {
    if |w| > 0 then w[0] else '\0'
  }

  // The second character of a word, NUL when there is none.
  function Second(w: string): char {
    if |w| > 1 then w[1] else '\0'
  }

  // Strrchr: the last place of a character.
  function LastIndex(s: string, c: char): (r: Option<nat>)
    ensures r.None? <==> c !in s
    ensures r.Some? ==> r.value < |s| && s[r.value] == c && c !in s[r.value + 1..]
    decreases |s|
  {
    if s == "" then None
    else if s[|s| - 1] == c then Some(|s| - 1)
    else
      var r := LastIndex(s[..|s| - 1], c);
      assert s == s[..|s| - 1] + [s[|s| - 1]];
      assert r.Some? ==> s[r.value + 1..] == s[..|s| - 1][r.value + 1..] + [s[|s| - 1]];
      r
  }
}

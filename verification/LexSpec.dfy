// What the lexer makes of a line that is not typed at a terminal (bin/csh/lex.c: word, lex,
// prlex), history and $ left out.
module LexSpec {
  import opened Shared

  const HIST := '!'

  // _META of bin/csh/char.c, the blanks included.
  predicate IsMeta(c: char) {
    c == ' ' || c == '\t' || c == '\n' || c == '#' || c == '`' || c == ';' || c == '&'
    || c == '<' || c == '>' || c == '(' || c == ')' || c == '|'
  }

  predicate IsBlank(c: char) {
    c == ' ' || c == '\t'
  }

  // _QF and _QB
  predicate IsQuote(c: char) {
    c == '\'' || c == '"' || c == '`'
  }

  predicate Doubles(c: char) {
    c == '&' || c == '|' || c == '<' || c == '>'
  }

  predicate Single(c: char) {
    c == ';' || c == '(' || c == ')' || c == '\n'
  }

  // A word read and the input behind it, the end of the input, or a quote left open.
  datatype Read = Read(text: string, rest: string) | Eof | Unmatched

  function Put(text: string, r: Read): Read {
    if r.Read? then Read(text + r.text, r.rest) else r
  }

  const OPEN := '\0'

  // The characters of a word from s on, behind an open quote q or, with OPEN, none.
  function Body(s: string, q: char): (r: Read)
    ensures r.Read? ==> |r.rest| <= |s|
    decreases |s|
  {
    if s == "" then Eof
    else if q == OPEN then
      if s[0] == '\\' then
        if |s| == 1 then Eof
        else if s[1] == '\n' then Read("", s[2..])
        else Put(if s[1] == HIST then [Quoted(s[1])] else ['\\', Quoted(s[1])], Body(s[2..], OPEN))
      else if IsQuote(s[0]) then Put([s[0]], Body(s[1..], s[0]))
      else if IsMeta(s[0]) then Read("", s)
      else Put([s[0]], Body(s[1..], OPEN))
    else
      if s[0] == q then Put([s[0]], Body(s[1..], OPEN))
      else if s[0] == '\\' then
        if |s| == 1 then Eof
        else if s[1] == HIST then Put([Quoted(HIST)], Body(s[2..], q))
        else if s[1] == '\n' then Put(['\\', Quoted('\n')], Body(s[2..], q))
        else Put([s[0]], Body(s[1..], q))
      else if s[0] == '\n' then Unmatched
      else Put([s[0]], Body(s[1..], q))
  }

  // Behind a #, the input from the newline on; was is the character before s.
  datatype Comment = Comment(last: char, rest: string) | NoEnd

  function SkipComment(s: string, was: char): (r: Comment)
    ensures r.Comment? ==> |r.rest| < |s|
    decreases |s|
  {
    if s == "" then NoEnd
    else if s[0] == '\n' then Comment(was, s[1..])
    else SkipComment(s[1..], s[0])
  }

  function Word(s: string): (r: Read)
    ensures r.Read? ==> |r.rest| <= |s|
    decreases |s|
  {
    if s == "" then Eof
    else if IsBlank(s[0]) then Word(s[1..])
    else if Doubles(s[0]) then
      if |s| == 1 then Eof
      else if s[1] == s[0] then Read(s[..2], s[2..])
      else Read(s[..1], s[1..])
    else if s[0] == '#' then
      match SkipComment(s[1..], OPEN)
      case NoEnd => Eof
      case Comment(last, rest) => if last == '\\' then Word(rest) else Read("\n", rest)
    else if Single(s[0]) then Read(s[..1], s[1..])
    else if s[0] == '\\' && |s| > 1 && s[1] == '\n' then Word(s[2..])
    else Body(s, OPEN)
  }

  lemma {:induction false} WordShrinks(s: string)
    ensures Word(s).Read? ==> |Word(s).rest| < |s| && Word(s).text != ""
    decreases |s|
  {
    if s == "" {
    } else if IsBlank(s[0]) {
      WordShrinks(s[1..]);
    } else if s[0] == '#' {
      var c := SkipComment(s[1..], OPEN);
      if c.Comment? { WordShrinks(c.rest); }
    } else if s[0] == '\\' && |s| > 1 && s[1] == '\n' {
      WordShrinks(s[2..]);
    }
  }

  // A line: its words, the last a newline, and the input behind it.
  datatype Line = Line(words: seq<string>, rest: string) | NoLine(unmatched: bool)

  function Front(ws: seq<string>, line: Line): Line {
    if line.Line? then Line(ws + line.words, line.rest) else line
  }

  function Lex(s: string): (r: Line)
    ensures r.Line? ==> r.words != []
    decreases |s|
  {
    WordShrinks(s);
    match Word(s)
    case Eof => NoLine(false)
    case Unmatched => NoLine(true)
    case Read(w, rest) =>
      if First(w) == '\n' then Line([w], rest)
      else Front([w], Lex(rest))
  }

  // prlex: the words with their quote bits dropped, a blank in front of all but the first
  // and the newline.
  function Strip(w: string): (r: string)
    ensures |r| == |w| && forall i :: 0 <= i < |w| ==> r[i] == Trim(w[i])
  {
    if w == "" then "" else [Trim(w[0])] + Strip(w[1..])
  }

  function PrLex(ws: seq<string>): string {
    if ws == [] then ""
    else if |ws| == 1 then Strip(ws[0])
    else Strip(ws[0]) + (if First(ws[1]) != '\n' then " " else "") + PrLex(ws[1..])
  }
}

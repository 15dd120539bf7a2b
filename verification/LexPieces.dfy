// What one word of input is (bin/csh/lex.c: word), told by its characters: plain ones,
// escaped ones and quoted stretches, up to a blank, a newline or an operator.
module LexPieces {
  import opened Shared
  import opened LexSpec

  // ----- characters -----

  predicate Terminates(c: char) {
    || c == ' ' || c == '\t' || c == '\n' || c == '#' || c == '(' || c == ')'
    || c == ';' || c == '&' || c == '|' || c == '<' || c == '>'
  }

  predicate Quotes(c: char) {
    c == '\'' || c == '"' || c == '`'
  }

  // ----- inside quotes -----

  // A character as it is, a history sign or a newline behind a backslash, or a backslash
  // in front of anything else, which stays as it is.
  datatype Inner = Char(c: char) | Bang | Newline | Backslash

  function InnerText(x: Inner): string {
    match x
    case Char(c) => [c]
    case Bang => "\\!"
    case Newline => "\\\n"
    case Backslash => "\\"
  }

  function InnerValue(x: Inner): string {
    match x
    case Char(c) => [c]
    case Bang => [Quoted('!')]
    case Newline => ['\\', Quoted('\n')]
    case Backslash => "\\"
  }

  function InnerTexts(xs: seq<Inner>): string {
    if xs == [] then "" else InnerText(xs[0]) + InnerTexts(xs[1..])
  }

  function InnerValues(xs: seq<Inner>): string {
    if xs == [] then "" else InnerValue(xs[0]) + InnerValues(xs[1..])
  }

  // What follows in the quotes is then not what a backslash in front would join with.
  predicate InnerFormed(xs: seq<Inner>, q: char) {
    xs != [] ==>
      && (xs[0].Char? ==> xs[0].c != q && xs[0].c != '\\' && xs[0].c != '\n')
      && (xs[0].Backslash? && |xs| > 1 ==> xs[1] != Char('!'))
      && InnerFormed(xs[1..], q)
  }

  // ----- a word -----

  datatype Piece = Plain(c: char) | Escaped(c: char) | Stretch(q: char, inner: seq<Inner>)

  function Text(p: Piece): string {
    match p
    case Plain(c) => [c]
    case Escaped(c) => ['\\', c]
    case Stretch(q, inner) => [q] + InnerTexts(inner) + [q]
  }

  // The characters of the word: quotes stay, an escaped character keeps its backslash and
  // is marked as quoted, but for the history sign, which is only marked.
  function Value(p: Piece): string {
    match p
    case Plain(c) => [c]
    case Escaped(c) => if c == '!' then [Quoted(c)] else ['\\', Quoted(c)]
    case Stretch(q, inner) => [q] + InnerValues(inner) + [q]
  }

  predicate Formed(p: Piece) {
    match p
    case Plain(c) => !Terminates(c) && !Quotes(c) && c != '\\'
    case Escaped(c) => c != '\n'
    case Stretch(q, inner) => Quotes(q) && InnerFormed(inner, q)
  }

  predicate AllFormed(ps: seq<Piece>) {
    forall k :: 0 <= k < |ps| ==> Formed(ps[k])
  }

  function Texts(ps: seq<Piece>): string {
    if ps == [] then "" else Text(ps[0]) + Texts(ps[1..])
  }

  function Values(ps: seq<Piece>): string {
    if ps == [] then "" else Value(ps[0]) + Values(ps[1..])
  }

  // The word ends here; an escaped newline is taken with it.
  predicate Ends(s: string) {
    s != "" && (Terminates(s[0]) || (|s| > 1 && s[0] == '\\' && s[1] == '\n'))
  }

  function Behind(s: string): string {
    if |s| > 1 && s[0] == '\\' && s[1] == '\n' then s[2..] else s
  }

  // ----- reading -----

  // A backslash at the end of what is in quotes does not join with what follows.
  predicate Apart(xs: seq<Inner>, tail: string) {
    tail != "" && (xs != [] && xs[|xs| - 1].Backslash? ==> tail[0] != '!' && tail[0] != '\n')
  }

  lemma {:induction false} InnerRun(xs: seq<Inner>, q: char, tail: string)
    requires Quotes(q) && InnerFormed(xs, q) && Apart(xs, tail)
    ensures Body(InnerTexts(xs) + tail, q) == Put(InnerValues(xs), Body(tail, q))
    decreases |xs|
  {
    if xs == [] {
      assert InnerTexts(xs) + tail == tail;
      PutNone(Body(tail, q));
    } else {
      assert xs[1..] != [] ==> xs[1..][|xs| - 2] == xs[|xs| - 1] && xs[1..][0] == xs[1];
      InnerRun(xs[1..], q, tail);
      InnerNext(xs, tail);
      InnerStep(xs[0], q, InnerTexts(xs[1..]) + tail);
      PutJoins(InnerValue(xs[0]), InnerValues(xs[1..]), Body(tail, q));
    }
  }

  lemma InnerNext(xs: seq<Inner>, tail: string)
    requires xs != [] && Apart(xs, tail) && (xs[0].Backslash? && |xs| > 1 ==> xs[1] != Char('!'))
    requires |xs| > 1 && xs[1].Char? ==> xs[1].c != '\n'
    ensures var rest := InnerTexts(xs[1..]) + tail;
            && rest != "" && InnerTexts(xs) + tail == InnerText(xs[0]) + rest
            && (xs[0].Backslash? ==> rest[0] != '!' && rest[0] != '\n')
  {
    if |xs| > 1 {
      assert InnerTexts(xs[1..]) == InnerText(xs[1]) + InnerTexts(xs[1..][1..]);
      assert InnerTexts(xs[1..])[0] == InnerText(xs[1])[0];
    }
    assert InnerTexts(xs) + tail == InnerText(xs[0]) + (InnerTexts(xs[1..]) + tail);
  }

  lemma InnerRead(xs: seq<Inner>, q: char, more: string)
    requires Quotes(q) && InnerFormed(xs, q)
    ensures Body(InnerTexts(xs) + [q] + more, q) == Put(InnerValues(xs) + [q], Body(more, OPEN))
  {
    var tail := [q] + more;
    assert InnerTexts(xs) + [q] + more == InnerTexts(xs) + tail && tail[1..] == more;
    InnerRun(xs, q, tail);
    PutJoins(InnerValues(xs), [q], Body(more, OPEN));
  }

  lemma PutJoins(a: string, b: string, r: Read)
    ensures Put(a, Put(b, r)) == Put(a + b, r)
  {
    if r.Read? { assert a + (b + r.text) == a + b + r.text; }
  }

  // One character inside quotes.
  lemma InnerStep(x: Inner, q: char, rest: string)
    requires Quotes(q) && rest != "" && (x.Char? ==> x.c != q && x.c != '\\' && x.c != '\n')
    requires x.Backslash? ==> rest[0] != '!' && rest[0] != '\n'
    ensures Body(InnerText(x) + rest, q) == Put(InnerValue(x), Body(rest, q))
  {
    var s := InnerText(x) + rest;
    assert s[1..] == InnerText(x)[1..] + rest;
    match x
    case Char(c) => assert s[1..] == rest;
    case Bang => assert s[2..] == rest;
    case Newline => assert s[2..] == rest;
    case Backslash => assert s[1..] == rest;
  }

  lemma PieceStep(p: Piece, rest: string)
    requires Formed(p)
    ensures Body(Text(p) + rest, OPEN) == Put(Value(p), Body(rest, OPEN))
  {
    var s := Text(p) + rest;
    match p
    case Plain(c) => assert s[1..] == rest;
    case Escaped(c) => assert s[2..] == rest;
    case Stretch(q, inner) =>
      Framed(q, InnerTexts(inner), rest);
      Framed(q, InnerValues(inner), "");
      InnerRead(inner, q, rest);
      PutJoins([q], InnerValues(inner) + [q], Body(rest, OPEN));
  }

  lemma Framed(q: char, t: string, rest: string)
    ensures var s := [q] + t + [q] + rest; s[0] == q && s[1..] == t + [q] + rest
    ensures [q] + (t + [q]) == [q] + t + [q]
  {
  }

  lemma {:induction false} PiecesStep(ps: seq<Piece>, rest: string)
    requires AllFormed(ps)
    ensures Body(Texts(ps) + rest, OPEN) == Put(Values(ps), Body(rest, OPEN))
  {
    if ps == [] {
      assert Texts(ps) + rest == rest;
      PutNone(Body(rest, OPEN));
    } else {
      PiecesStep(ps[1..], rest);
      assert Texts(ps) + rest == Text(ps[0]) + (Texts(ps[1..]) + rest);
      PieceStep(ps[0], Texts(ps[1..]) + rest);
      PutJoins(Value(ps[0]), Values(ps[1..]), Body(rest, OPEN));
    }
  }

  lemma PutNone(r: Read)
    ensures Put("", r) == r
  {
    if r.Read? { assert "" + r.text == r.text; }
  }

  lemma EndStep(s: string)
    requires Ends(s)
    ensures Body(s, OPEN) == Read("", Behind(s))
  {
  }

  // ----- every word is made of pieces -----

  // The rest of a quoted stretch, up to the quote that closes it.
  lemma {:induction false} InnerOf(s: string, q: char) returns (xs: seq<Inner>, more: string)
    requires Quotes(q) && Body(s, q).Read?
    ensures InnerFormed(xs, q) && s == InnerTexts(xs) + [q] + more
    decreases |s|
  {
    if s[0] == q {
      xs, more := [], s[1..];
      assert s == "" + [q] + more;
    } else {
      var x := FirstInner(s, q);
      var n := |InnerText(x)|;
      var rest: seq<Inner>;
      rest, more := InnerOf(s[n..], q);
      xs := [x] + rest;
      InnerFront(x, rest);
      InnerJoins(s, x, rest, q, more);
      if x.Backslash? { FollowsBackslash(s, rest, q, more); }
    }
  }

  lemma InnerFront(x: Inner, rest: seq<Inner>)
    ensures InnerTexts([x] + rest) == InnerText(x) + InnerTexts(rest)
    ensures ([x] + rest)[1..] == rest
  {
    assert ([x] + rest)[1..] == rest;
  }

  lemma InnerJoins(s: string, x: Inner, rest: seq<Inner>, q: char, more: string)
    requires var n := |InnerText(x)|; n <= |s| && s[..n] == InnerText(x) && s[n..] == InnerTexts(rest) + [q] + more
    ensures s == InnerText(x) + InnerTexts(rest) + [q] + more
  {
    assert s == s[..|InnerText(x)|] + s[|InnerText(x)|..];
  }

  lemma FollowsBackslash(s: string, rest: seq<Inner>, q: char, more: string)
    requires |s| > 1 && s[0] == '\\' && s[1] != '!' && s[1..] == InnerTexts(rest) + [q] + more
    ensures |rest| > 0 ==> rest[0] != Char('!')
  {
    if |rest| > 0 {
      var t := InnerTexts(rest);
      assert t == InnerText(rest[0]) + InnerTexts(rest[1..]) && t[0] == InnerText(rest[0])[0];
      assert s[1] == s[1..][0] == t[0];
    }
  }

  lemma FirstInner(s: string, q: char) returns (x: Inner)
    requires Quotes(q) && Body(s, q).Read? && s[0] != q
    ensures var n := |InnerText(x)|;
            && 0 < n <= |s| && s[..n] == InnerText(x) && Body(s[n..], q).Read?
            && (x.Char? ==> x.c != q && x.c != '\\' && x.c != '\n')
            && (x.Backslash? ==> |s| > 1 && s[0] == '\\' && s[1] != '!' && s[1] != '\n')
  {
    if s[0] != '\\' {
      x := Char(s[0]);
      assert s[..1] == [s[0]];
    } else if s[1] == '!' {
      x := Bang;
      assert s[..2] == "\\!";
    } else if s[1] == '\n' {
      x := Newline;
      assert s[..2] == "\\\n";
    } else {
      x := Backslash;
      assert s[..1] == "\\";
    }
  }

  lemma FirstPiece(s: string) returns (p: Piece)
    requires Body(s, OPEN).Read? && !Ends(s)
    ensures Formed(p) && Text(p) <= s && Body(s[|Text(p)|..], OPEN).Read?
  {
    if s[0] == '\\' {
      p := Escaped(s[1]);
      assert s[..2] == ['\\', s[1]];
    } else if Quotes(s[0]) {
      var inner, more := InnerOf(s[1..], s[0]);
      p := Stretch(s[0], inner);
      assert s == [s[0]] + s[1..];
      assert s == Text(p) + more;
      PieceStep(p, more);
      assert s[|Text(p)|..] == more;
    } else {
      p := Plain(s[0]);
      assert s[..1] == [s[0]];
    }
  }

  lemma {:induction false} PiecesOf(s: string) returns (ps: seq<Piece>, rest: string)
    requires Body(s, OPEN).Read?
    ensures AllFormed(ps) && Ends(rest) && s == Texts(ps) + rest
    decreases |s|
  {
    if Ends(s) {
      ps, rest := [], s;
      assert "" + s == s;
    } else {
      var p := FirstPiece(s);
      var more;
      more, rest := PiecesOf(s[|Text(p)|..]);
      ps := [p] + more;
      PiecesFront(s, p, more, rest);
    }
  }

  lemma PiecesFront(s: string, p: Piece, more: seq<Piece>, rest: string)
    requires Text(p) <= s && s[|Text(p)|..] == Texts(more) + rest
    ensures Texts([p] + more) + rest == s
  {
    assert ([p] + more)[1..] == more;
    assert s == Text(p) + s[|Text(p)|..];
    assert Text(p) + Texts(more) + rest == Text(p) + (Texts(more) + rest);
  }

  // The word w is read off the input, and r is left, exactly when the input is some pieces
  // and something that ends a word, w is what the pieces stand for and r is what ends it.
  lemma BodyIs(s: string, w: string, r: string)
    ensures Body(s, OPEN) == Read(w, r) <==>
            exists ps, rest ::
              AllFormed(ps) && Ends(rest) && s == Texts(ps) + rest && w == Values(ps) && r == Behind(rest)
  {
    if Body(s, OPEN) == Read(w, r) {
      var ps, rest := PiecesOf(s);
      PiecesStep(ps, rest);
      EndStep(rest);
      assert Values(ps) + "" == Values(ps);
    }
    if ps, rest :| AllFormed(ps) && Ends(rest) && s == Texts(ps) + rest && w == Values(ps) && r == Behind(rest) {
      PiecesStep(ps, rest);
      EndStep(rest);
      assert Values(ps) + "" == Values(ps);
    }
  }

  // ----- quotes left open -----

  // Some quote is opened behind pieces, and the line ends before it is closed.
  ghost predicate LeftOpen(s: string) {
    exists ps, q, inner, more ::
      && AllFormed(ps) && Quotes(q) && InnerFormed(inner, q) && Apart(inner, "\n")
      && s == Texts(ps) + ([q] + (InnerTexts(inner) + ("\n" + more)))
  }

  // Quoted text that is followed by tail.
  ghost predicate Splits(s: string, xs: seq<Inner>, q: char, tail: string) {
    InnerFormed(xs, q) && Apart(xs, tail) && s == InnerTexts(xs) + tail
  }

  // What is quoted is closed, or runs into the newline.
  lemma {:induction false} OpenInner(s: string, q: char) returns (xs: seq<Inner>, tail: string)
    requires Quotes(q) && Body(s, q) == Unmatched
    ensures Splits(s, xs, q, tail) && (tail[0] == '\n' || (tail[0] == q && Body(tail[1..], OPEN) == Unmatched))
    ensures |tail| <= |s|
    decreases |s|
  {
    if s[0] == '\n' || s[0] == q {
      xs, tail := [], s;
      assert s == "" + s;
    } else {
      var x := OpenFirst(s, q);
      var rest;
      rest, tail := OpenInner(s[|InnerText(x)|..], q);
      xs := [x] + rest;
      OpenGrown(s, q, x, rest, tail);
    }
  }

  lemma OpenGrown(s: string, q: char, x: Inner, rest: seq<Inner>, tail: string)
    requires InnerText(x) <= s && Splits(s[|InnerText(x)|..], rest, q, tail)
    requires x.Char? ==> x.c != q && x.c != '\\' && x.c != '\n'
    requires x.Backslash? ==> |s| > 1 && s[1] != '!' && s[1] != '\n'
    ensures Splits(s, [x] + rest, q, tail)
  {
    var t := s[|InnerText(x)|..];
    assert s == InnerText(x) + t;
    InnerFront(x, rest);
    if rest == [] {
      assert t == "" + tail == tail;
      assert x.Backslash? ==> t[0] == s[1];
    } else {
      assert ([x] + rest)[|rest|] == rest[|rest| - 1];
      assert t[0] == InnerText(rest[0])[0] by {
        assert InnerTexts(rest) == InnerText(rest[0]) + InnerTexts(rest[1..]);
      }
      assert x.Backslash? ==> t[0] == s[1];
    }
  }

  lemma OpenFirst(s: string, q: char) returns (x: Inner)
    requires Quotes(q) && Body(s, q) == Unmatched && s[0] != q && s[0] != '\n'
    ensures var n := |InnerText(x)|;
            && 0 < n <= |s| && InnerText(x) <= s && Body(s[n..], q) == Unmatched
            && (x.Char? ==> x.c != q && x.c != '\\' && x.c != '\n')
            && (x.Backslash? ==> |s| > 1 && s[0] == '\\' && s[1] != '!' && s[1] != '\n')
  {
    if s[0] != '\\' {
      x := Char(s[0]);
      assert s[..1] == [s[0]];
    } else if s[1] == '!' {
      x := Bang;
      assert s[..2] == "\\!";
    } else if s[1] == '\n' {
      x := Newline;
      assert s[..2] == "\\\n";
    } else {
      x := Backslash;
      assert s[..1] == "\\";
    }
  }

  lemma {:induction false} OpenPieces(s: string)
    requires Body(s, OPEN) == Unmatched
    ensures LeftOpen(s)
    decreases |s|, 1
  {
    if Quotes(s[0]) {
      OpenQuote(s);
    } else {
      var p := if s[0] == '\\' then Escaped(s[1]) else Plain(s[0]);
      var n := |Text(p)|;
      assert s == Text(p) + s[n..];
      OpenPieces(s[n..]);
      OpenBehind(p, s[n..]);
    }
  }

  lemma {:induction false} OpenQuote(s: string)
    requires Body(s, OPEN) == Unmatched && Quotes(s[0])
    ensures LeftOpen(s)
    decreases |s|, 0
  {
    var q := s[0];
    var xs, tail := OpenInner(s[1..], q);
    assert s == [q] + s[1..];
    if tail[0] == '\n' {
      LeftHere(s, q, xs, tail);
    } else {
      OpenPieces(tail[1..]);
      OpenBehind(Stretch(q, xs), tail[1..]);
      StretchText(s, q, xs, tail);
    }
  }

  lemma LeftHere(s: string, q: char, xs: seq<Inner>, tail: string)
    requires Quotes(q) && tail != "" && tail[0] == '\n' && InnerFormed(xs, q) && Apart(xs, tail)
    requires s == [q] + (InnerTexts(xs) + tail)
    ensures LeftOpen(s)
  {
    assert tail == "\n" + tail[1..];
    assert s == Texts([]) + ([q] + (InnerTexts(xs) + ("\n" + tail[1..])));
  }

  lemma StretchText(s: string, q: char, xs: seq<Inner>, tail: string)
    requires tail != "" && tail[0] == q && s == [q] + (InnerTexts(xs) + tail)
    ensures Text(Stretch(q, xs)) + tail[1..] == s
  {
    assert tail == [q] + tail[1..];
  }

  lemma OpenBehind(p: Piece, s: string)
    requires Formed(p) && LeftOpen(s)
    ensures LeftOpen(Text(p) + s)
  {
    var ps, q, inner, more :|
      && AllFormed(ps) && Quotes(q) && InnerFormed(inner, q) && Apart(inner, "\n")
      && s == Texts(ps) + ([q] + (InnerTexts(inner) + ("\n" + more)));
    var tail := [q] + (InnerTexts(inner) + ("\n" + more));
    assert ([p] + ps)[1..] == ps;
    Associates(Text(p), Texts(ps), tail);
    assert AllFormed([p] + ps) && Text(p) + s == Texts([p] + ps) + tail;
  }

  lemma Associates(a: string, b: string, c: string)
    ensures a + (b + c) == a + b + c
  {
  }

  // A word fails for a quote exactly when one is left open on its line.
  lemma UnmatchedIs(s: string)
    ensures Body(s, OPEN) == Unmatched <==> LeftOpen(s)
  {
    if Body(s, OPEN) == Unmatched { OpenPieces(s); }
    if ps, q, inner, more :|
      && AllFormed(ps) && Quotes(q) && InnerFormed(inner, q) && Apart(inner, "\n")
      && s == Texts(ps) + ([q] + (InnerTexts(inner) + ("\n" + more)))
    {
      LeftOpenFails(ps, q, inner, more);
    }
  }

  lemma LeftOpenFails(ps: seq<Piece>, q: char, inner: seq<Inner>, more: string)
    requires AllFormed(ps) && Quotes(q) && InnerFormed(inner, q) && Apart(inner, "\n")
    ensures Body(Texts(ps) + ([q] + (InnerTexts(inner) + ("\n" + more))), OPEN) == Unmatched
  {
    var tail := "\n" + more;
    var t := [q] + (InnerTexts(inner) + tail);
    InnerRun(inner, q, tail);
    assert t[1..] == InnerTexts(inner) + tail;
    PiecesStep(ps, t);
  }

  // ----- what a word begins with -----

  // Blanks, comments and escaped newlines in front are passed over; an operator of one or
  // two characters, a parenthesis or a newline is a word; everything else begins a word of
  // pieces.
  lemma WordIs(s: string, c: char, rest: string)
    requires s == [c] + rest
    ensures c == ' ' || c == '\t' ==> Word(s) == Word(rest)
    ensures c == '&' || c == '|' || c == '<' || c == '>' ==>
              Word(s) == if rest == "" then Eof else if rest[0] == c then Read([c, c], rest[1..]) else Read([c], rest)
    ensures c == ';' || c == '(' || c == ')' || c == '\n' ==> Word(s) == Read([c], rest)
    ensures c == '\\' && rest != "" && rest[0] == '\n' ==> Word(s) == Word(rest[1..])
    ensures !Terminates(c) && !(c == '\\' && rest != "" && rest[0] == '\n') ==> Word(s) == Body(s, OPEN)
  {
    assert s[1..] == rest && s[..1] == [c];
    if rest != "" { assert s[2..] == rest[1..] && s[..2] == [c, rest[0]]; }
  }

  // A comment is a newline, unless a backslash ends it: then it goes on with the next line.
  lemma CommentIs(text: string, rest: string)
    requires '\n' !in text
    ensures Word("#" + text + "\n" + rest) ==
            if text != "" && text[|text| - 1] == '\\' then Word(rest) else Read("\n", rest)
  {
    var s := "#" + text + "\n" + rest;
    assert s[1..] == text + "\n" + rest;
    CommentSkipped(text, rest, OPEN);
  }

  lemma {:induction false} CommentSkipped(text: string, rest: string, was: char)
    requires '\n' !in text
    ensures SkipComment(text + "\n" + rest, was) == Comment(if text == "" then was else text[|text| - 1], rest)
    decreases |text|
  {
    var s := text + "\n" + rest;
    if text == "" {
      assert s[1..] == rest;
    } else {
      assert s[1..] == text[1..] + "\n" + rest;
      CommentSkipped(text[1..], rest, text[0]);
    }
  }

  // A line is the words up to the first newline, and the input behind it is left.
  lemma LineIs(s: string)
    ensures match Word(s)
            case Eof => Lex(s) == NoLine(false)
            case Unmatched => Lex(s) == NoLine(true)
            case Read(w, rest) =>
              |rest| < |s| && Lex(s) == if w != "" && w[0] == '\n' then Line([w], rest) else Front([w], Lex(rest))
  {
    WordShrinks(s);
  }
}

// The lexer at work (bin/csh/lex.c: getC, word, lex) with its one character of peeking.
module Lexer {
  import opened Shared
  import opened LexSpec

  datatype Got = Got(word: string) | NoMore | BadQuote

  ghost predicate Agrees(spec: Read, got: Got, rest: string) {
    match spec
    case Read(w, r) => got == Got(w) && rest == r
    case Eof => got == NoMore
    case Unmatched => got == BadQuote
  }

  lemma PutPut(a: string, b: string, r: Read)
    ensures Put(a, Put(b, r)) == Put(a + b, r)
  {
    if r.Read? { assert a + (b + r.text) == a + b + r.text; }
  }

  class Lexer {
    const input: string
    var at: nat
    var peekc: char

    constructor (input: string)
      requires forall i :: 0 <= i < |input| ==> input[i] != OPEN
      ensures Valid() && Rest() == input
    {
      this.input := input;
      at, peekc := 0, OPEN;
    }

    ghost predicate Valid()
      reads this
    {
      at <= |input| && forall i :: 0 <= i < |input| ==> input[i] != OPEN
    }

    // The input still to be read.
    ghost function Rest(): string
      reads this
      requires at <= |input|
    {
      (if peekc != OPEN then [peekc] else "") + input[at..]
    }

    // OPEN at the end of the input.
    method GetC() returns (c: char)
      requires Valid()
      modifies this
      ensures Valid() && peekc == OPEN
      ensures c == OPEN <==> old(Rest()) == ""
      ensures c != OPEN ==> old(Rest()) == [c] + Rest()
      ensures c == OPEN ==> Rest() == ""
    {
      if peekc != OPEN {
        c := peekc;
        peekc := OPEN;
      } else if at < |input| {
        c := input[at];
        at := at + 1;
      } else {
        c := OPEN;
      }
    }

    method UngetC(c: char)
      requires Valid() && peekc == OPEN && c != OPEN
      modifies this
      ensures Valid() && Rest() == [c] + old(Rest())
    {
      peekc := c;
    }

    // A backslash inside the quote q: it escapes the history character and a newline, and
    // otherwise stands for itself.
    method BackslashInQuote(q: char) returns (stop: bool, c: char)
      requires Valid() && IsQuote(q) && peekc == OPEN
      modifies this
      ensures Valid() && (stop ==> Body(['\\'] + old(Rest()), q) == Eof)
      ensures !stop ==> |Rest()| <= |old(Rest())| && Body(['\\'] + old(Rest()), q) == Put([c], Body(Rest(), q))
    {
      stop := false;
      c := GetC();
      if c == OPEN {
        stop := true;
        return;
      }
      BackslashRead(c, Rest(), q);
      if c == HIST {
        c := Quoted(c);
      } else {
        if c == '\n' {
          c := Quoted(c);
        }
        UngetC(c);
        c := '\\';
      }
    }

    // One character inside the quote q: what to put in the word, and the quote after it.
    method InQuote(first: char, q: char) returns (stop: bool, got: Got, c: char, c1: char)
      requires Valid() && first != OPEN && IsQuote(q) && peekc == OPEN
      modifies this
      ensures Valid() && (stop ==> got == NoMore || got == BadQuote) && (c1 == OPEN || c1 == q)
      ensures stop ==> Agrees(Body([first] + old(Rest()), q), got, Rest())
      ensures !stop ==> |Rest()| <= |old(Rest())| && Body([first] + old(Rest()), q) == Put([c], Body(Rest(), c1))
    {
      c, c1, stop, got := first, q, false, NoMore;
      assert ([first] + Rest())[1..] == Rest();
      if c == c1 {
        c1 := OPEN;
      } else if c == '\\' {
        stop, c := BackslashInQuote(q);
      } else if c == '\n' {
        UngetC(c);
        stop, got := true, BadQuote;
      }
    }

    // One character outside quotes: it ends the word, or pre and c are put in it.
    method OutOfQuote(first: char) returns (stop: bool, ends: bool, pre: string, c: char, c1: char)
      requires Valid() && first != OPEN && peekc == OPEN
      modifies this
      ensures Valid() && (c1 == OPEN || IsQuote(c1))
      ensures ends ==> Body([first] + old(Rest()), OPEN) == Read("", Rest())
      ensures stop ==> Body([first] + old(Rest()), OPEN) == Eof
      ensures !ends && !stop ==>
                && |Rest()| <= |old(Rest())|
                && Body([first] + old(Rest()), OPEN) == Put(pre + [c], Body(Rest(), c1))
    {
      c, c1, stop, ends, pre := first, OPEN, false, false, "";
      ghost var s := [first] + Rest();
      assert s[1..] == Rest();
      if c == '\\' {
        c := GetC();
        if c == OPEN {
          stop := true;
          return;
        }
        assert s[2..] == Rest();
        if c == '\n' {
          ends := true;
          return;
        }
        if c != HIST {
          pre := ['\\'];
        }
        c := Quoted(c);
      } else if IsQuote(c) {
        c1 := c;
      } else if IsMeta(c) {
        UngetC(c);
        ends := true;
      }
    }

    // One character, in quotes or not: what to put in the word, and the quote after it.
    method OneRound(first: char, q: char) returns (stop: bool, ends: bool, got: Got, more: string, c1: char)
      requires Valid() && first != OPEN && peekc == OPEN && (q == OPEN || IsQuote(q))
      modifies this
      ensures Valid() && (c1 == OPEN || IsQuote(c1))
      ensures ends ==> Body([first] + old(Rest()), q) == Read("", Rest())
      ensures stop ==> (got == NoMore || got == BadQuote) && Agrees(Body([first] + old(Rest()), q), got, Rest())
      ensures !ends && !stop ==>
                && |Rest()| <= |old(Rest())|
                && Body([first] + old(Rest()), q) == Put(more, Body(Rest(), c1))
    {
      var c;
      ends, got, more := false, NoMore, "";
      if q != OPEN {
        stop, got, c, c1 := InQuote(first, q);
        more := [c];
      } else {
        stop, ends, more, c, c1 := OutOfQuote(first);
        more := more + [c];
      }
    }

    // The characters of a word from first on.
    method ReadBody(first: char) returns (got: Got)
      requires Valid() && first != OPEN && peekc == OPEN
      modifies this
      ensures Valid() && Agrees(Body([first] + old(Rest()), OPEN), got, Rest())
    {
      var c, c1, wp := first, OPEN, "";
      ghost var all := Body([first] + Rest(), OPEN);
      PutNothing(all);
      while true
        invariant Valid() && c != OPEN && peekc == OPEN && (c1 == OPEN || IsQuote(c1))
        invariant all == Put(wp, Body([c] + Rest(), c1))
        decreases |Rest()|
      {
        var stop, ends, more;
        stop, ends, got, more, c1 := OneRound(c, c1);
        if ends {
          return Got(wp);
        }
        if stop {
          return;
        }
        PutPut(wp, more, Body(Rest(), c1));
        wp := wp + more;
        c := GetC();
        if c == OPEN {
          return NoMore;
        }
      }
    }

    // Behind a #, up to and over the newline; the character before it.
    method OverComment() returns (last: char, ended: bool)
      requires Valid() && peekc == OPEN
      modifies this
      ensures Valid() && peekc == OPEN
      ensures !ended <==> SkipComment(old(Rest()), OPEN) == NoEnd
      ensures ended ==> SkipComment(old(Rest()), OPEN) == Comment(last, Rest())
    {
      last := OPEN;
      var c := GetC();
      while c != '\n'
        invariant Valid() && peekc == OPEN
        invariant if c == OPEN then SkipComment(old(Rest()), OPEN) == NoEnd
                  else SkipComment(old(Rest()), OPEN) == SkipComment([c] + Rest(), last)
        decreases |Rest()|, if c == OPEN then 0 else 1
      {
        if c == OPEN {
          return last, false;
        }
        assert ([c] + Rest())[1..] == Rest();
        last := c;
        c := GetC();
      }
      assert ([c] + Rest())[1..] == Rest();
      ended := true;
    }

    // One of & | < >, or two of them.
    method Operator(c: char) returns (got: Got)
      requires Valid() && peekc == OPEN && Doubles(c)
      modifies this
      ensures Valid() && Agrees(Word([c] + old(Rest())), got, Rest())
    {
      ghost var s := [c] + Rest();
      assert s[1..] == Rest() && s[..1] == [c];
      var c1 := GetC();
      if c1 == OPEN {
        return NoMore;
      }
      assert s[1] == c1 && s[2..] == Rest() && s[..2] == [c, c1];
      if c1 == c {
        return Got([c, c1]);
      }
      UngetC(c1);
      got := Got([c]);
    }

    // Behind a backslash at the start of a word; an escaped newline is passed over.
    method Escaped() returns (again: bool, got: Got)
      requires Valid() && peekc == OPEN
      modifies this
      ensures Valid()
      ensures again ==> |Rest()| <= |old(Rest())| && Word(['\\'] + old(Rest())) == Word(Rest())
      ensures !again ==> Agrees(Word(['\\'] + old(Rest())), got, Rest())
    {
      ghost var s := ['\\'] + Rest();
      again, got := false, NoMore;
      var d := GetC();
      if d == OPEN {
        return;
      }
      assert s[1] == d && s[2..] == Rest();
      if d == '\n' {
        again := true;
        return;
      }
      EscapedAhead(d, Rest());
      var pre := if d != HIST then ['\\'] else "";
      PutPut(pre, [Quoted(d)], Body(Rest(), OPEN));
      got := ReadBody(Quoted(d));
      if got.Got? {
        got := Got(pre + got.word);
      }
    }

    // What follows a #: the words go on behind it, or the newline is the word.
    method Hash() returns (again: bool, got: Got)
      requires Valid() && peekc == OPEN
      modifies this
      ensures Valid()
      ensures again ==> |Rest()| <= |old(Rest())| && Word(['#'] + old(Rest())) == Word(Rest())
      ensures !again ==> Agrees(Word(['#'] + old(Rest())), got, Rest())
    {
      assert (['#'] + Rest())[1..] == Rest();
      var last, ended := OverComment();
      again := ended && last == '\\';
      got := if ended then Got("\n") else NoMore;
    }

    method ReadWord() returns (got: Got)
      requires Valid()
      modifies this
      ensures Valid() && Agrees(Word(old(Rest())), got, Rest())
    {
      ghost var all := Word(Rest());
      var again := true;
      got := NoMore;
      while again
        invariant Valid() && if again then Word(Rest()) == all else Agrees(all, got, Rest())
        decreases again, |Rest()|
      {
        var c := GetC();
        if c == OPEN {
          return NoMore;
        }
        assert ([c] + Rest())[1..] == Rest() && ([c] + Rest())[..1] == [c];
        again := IsBlank(c);
        if Doubles(c) {
          got := Operator(c);
        } else if c == '#' {
          again, got := Hash();
        } else if Single(c) {
          got := Got([c]);
        } else if c == '\\' {
          again, got := Escaped();
        } else if !again {
          got := ReadBody(c);
        }
      }
    }

    // A line, word by word up to the newline.
    method Lex() returns (words: seq<string>, bad: Option<bool>)
      requires Valid()
      modifies this
      ensures Valid()
      ensures match LexSpec.Lex(old(Rest()))
              case Line(ws, rest) => bad == None && words == ws && Rest() == rest
              case NoLine(unmatched) => bad == Some(unmatched)
    {
      words := [];
      ghost var all := LexSpec.Lex(Rest());
      FrontNothing(all);
      while true
        invariant Valid() && all == Front(words, LexSpec.Lex(Rest()))
        decreases |Rest()|
      {
        WordShrinks(Rest());
        var got := ReadWord();
        match got {
          case NoMore => return words, Some(false);
          case BadQuote => return words, Some(true);
          case Got(w) =>
            FrontMore(words, w, LexSpec.Lex(Rest()));
            words := words + [w];
            if w[0] == '\n' {
              return words, None;
            }
        }
      }
    }
  }

  lemma FrontNothing(line: Line)
    ensures Front([], line) == line
  {
    if line.Line? { assert [] + line.words == line.words; }
  }

  lemma FrontMore(words: seq<string>, w: string, line: Line)
    ensures Front(words, Front([w], line)) == Front(words + [w], line)
  {
    if line.Line? { assert words + ([w] + line.words) == words + [w] + line.words; }
  }

  lemma PutNothing(r: Read)
    ensures Put("", r) == r
  {
    if r.Read? { assert "" + r.text == r.text; }
  }

  // A character with its quote bit is put in the word as it is.
  lemma EscapedAhead(d: char, rest: string)
    requires d != OPEN
    ensures Body([Quoted(d)] + rest, OPEN) == Put([Quoted(d)], Body(rest, OPEN))
  {
    assert ([Quoted(d)] + rest)[1..] == rest;
  }

  // A newline with its quote bit, put back, is read as it is.
  lemma QuotedAhead(c: char, rest: string, q: char)
    requires c == Quoted('\n') && q != OPEN && q != c
    ensures Body([c] + rest, q) == Put([c], Body(rest, q))
  {
    assert ([c] + rest)[1..] == rest;
  }

  lemma BackslashRead(d: char, rest: string, q: char)
    requires IsQuote(q)
    ensures Body(['\\'] + ([d] + rest), q) ==
            if d == HIST then Put([Quoted(HIST)], Body(rest, q))
            else Put(['\\'], Body([if d == '\n' then Quoted(d) else d] + rest, q))
  {
    var s := ['\\'] + ([d] + rest);
    assert s[1..] == [d] + rest && s[2..] == rest;
    if d == '\n' {
      QuotedAhead(Quoted(d), rest, q);
      PutPut(['\\'], [Quoted(d)], Body(rest, q));
    }
  }
}

// Printing the words of a line and reading them again gives the same words, quote bits
// included.
module LexRound {
  import opened Shared
  import opened LexSpec

  predicate CleanChar(c: char) {
    (' ' <= c <= '~' || c == '\t' || c == '\n') && c != HIST && c != '$'
  }

  // Text without history references and variables.
  predicate Clean(s: string) {
    forall i :: 0 <= i < |s| ==> CleanChar(s[i])
  }

  lemma QuotedBack(c: char)
    requires CleanChar(c)
    ensures Trim(Quoted(c)) == c && Trim(c) == c && Quoted(c) != '\n'
  {
  }

  lemma StripPut(a: string, b: string, t: string)
    ensures Strip(a + b) + t == Strip(a) + (Strip(b) + t)
  {
  }

  // Inside quotes something is read, and it begins with the character that is there.
  lemma InQuotes(s: string, q: char)
    requires Clean(s) && q != OPEN && Body(s, q).Read?
    ensures s != "" && Body(s, q).text != "" && Trim(Body(s, q).text[0]) == s[0]
  {
    QuotedBack(s[0]);
  }

  lemma {:induction false} BodyAgain(s: string, q: char, t: string)
    requires Clean(s) && Body(s, q).Read? && (q == OPEN || IsQuote(q))
    requires t != "" && (t[0] == ' ' || t[0] == '\n')
    ensures Body(Strip(Body(s, q).text) + t, q) == Read(Body(s, q).text, t)
    decreases |s|
  {
    if q == OPEN {
      OpenAgain(s, t);
    } else {
      QuoteAgain(s, q, t);
    }
  }

  // A word read in one step and what follows.
  lemma PutAgain(a: string, plain: string, s: string, k: nat, q: char, q': char, t: string)
    requires Strip(a) == plain && k <= |s| && Body(s[k..], q').Read?
    requires Body(s, q) == Put(a, Body(s[k..], q'))
    requires Body(Strip(Body(s[k..], q').text) + t, q') == Read(Body(s[k..], q').text, t)
    ensures Strip(Body(s, q).text) + t == plain + (Strip(Body(s[k..], q').text) + t)
    ensures Read(Body(s, q).text, t) == Put(a, Body(Strip(Body(s[k..], q').text) + t, q'))
  {
    StripPut(a, Body(s[k..], q').text, t);
  }

  lemma {:induction false} OpenAgain(s: string, t: string)
    requires Clean(s) && Body(s, OPEN).Read?
    requires t != "" && (t[0] == ' ' || t[0] == '\n')
    ensures Body(Strip(Body(s, OPEN).text) + t, OPEN) == Read(Body(s, OPEN).text, t)
    decreases |s|, 0
  {
    QuotedBack(s[0]);
    if s[0] == '\\' {
      QuotedBack(s[1]);
      if s[1] == '\n' {
        assert Strip("") + t == t;
      } else {
        BodyAgain(s[2..], OPEN, t);
        var a, x := ['\\', Quoted(s[1])], Strip(Body(s[2..], OPEN).text) + t;
        assert Strip(a) == ['\\', s[1]];
        PutAgain(a, ['\\', s[1]], s, 2, OPEN, OPEN, t);
        assert (['\\', s[1]] + x)[2..] == x;
      }
    } else if IsMeta(s[0]) && !IsQuote(s[0]) {
      assert Strip("") + t == t;
    } else {
      var q' := if IsQuote(s[0]) then s[0] else OPEN;
      BodyAgain(s[1..], q', t);
      var a, x := [s[0]], Strip(Body(s[1..], q').text) + t;
      assert Strip(a) == a;
      PutAgain(a, a, s, 1, OPEN, q', t);
      assert (a + x)[1..] == x;
    }
  }

  lemma {:induction false} QuoteAgain(s: string, q: char, t: string)
    requires Clean(s) && Body(s, q).Read? && IsQuote(q)
    requires t != "" && (t[0] == ' ' || t[0] == '\n')
    ensures Body(Strip(Body(s, q).text) + t, q) == Read(Body(s, q).text, t)
    decreases |s|, 0
  {
    QuotedBack(s[0]);
    if s[0] == '\\' && s[1] == '\n' {
      BodyAgain(s[2..], q, t);
      var a, x := ['\\', Quoted('\n')], Strip(Body(s[2..], q).text) + t;
      assert Strip(a) == ['\\', '\n'];
      PutAgain(a, ['\\', '\n'], s, 2, q, q, t);
      assert (['\\', '\n'] + x)[2..] == x;
    } else {
      var q' := if s[0] == q then OPEN else q;
      BodyAgain(s[1..], q', t);
      var a, x := [s[0]], Strip(Body(s[1..], q').text) + t;
      assert Strip(a) == a;
      PutAgain(a, a, s, 1, q, q', t);
      assert (a + x)[1..] == x;
      if s[0] == '\\' {
        InQuotes(s[1..], q);
        assert x[0] == s[1];
      }
    }
  }

  lemma WordAgain(s: string, t: string)
    requires Clean(s) && Word(s).Read?
    requires t != "" && (t[0] == ' ' || t[0] == '\n')
    ensures Word(Strip(Word(s).text) + t) == Read(Word(s).text, t)
    ensures First(Word(s).text) == '\n' ==> Word(s).text == "\n"
    ensures Clean(Word(s).rest)
    decreases |s|
  {
    if IsBlank(s[0]) {
      WordAgain(s[1..], t);
    } else if Doubles(s[0]) {
      QuotedBack(s[0]);
    } else if s[0] == '#' {
      CommentClean(s[1..], OPEN);
      var c := SkipComment(s[1..], OPEN);
      if c.last == '\\' { WordAgain(c.rest, t); }
    } else if Single(s[0]) {
      QuotedBack(s[0]);
    } else if s[0] == '\\' && |s| > 1 && s[1] == '\n' {
      WordAgain(s[2..], t);
    } else {
      TextAgain(s, t);
    }
  }

  lemma CommentClean(s: string, was: char)
    requires Clean(s) && SkipComment(s, was).Comment?
    ensures Clean(SkipComment(s, was).rest)
    decreases |s|
  {
    if s[0] != '\n' { CommentClean(s[1..], s[0]); }
  }

  lemma {:induction false} BodyClean(s: string, q: char)
    requires Clean(s) && Body(s, q).Read?
    ensures Clean(Body(s, q).rest)
    decreases |s|
  {
    if q == OPEN {
      if s[0] == '\\' {
        if s[1] != '\n' { BodyClean(s[2..], OPEN); }
      } else if IsQuote(s[0]) {
        BodyClean(s[1..], s[0]);
      } else if !IsMeta(s[0]) {
        BodyClean(s[1..], OPEN);
      }
    } else if s[0] == q {
      BodyClean(s[1..], OPEN);
    } else if s[0] == '\\' && s[1] == '\n' {
      BodyClean(s[2..], q);
    } else {
      BodyClean(s[1..], q);
    }
  }

  // A word that is no operator.
  lemma TextAgain(s: string, t: string)
    requires Clean(s) && s != "" && Body(s, OPEN).Read?
    requires !IsBlank(s[0]) && !Doubles(s[0]) && s[0] != '#' && !Single(s[0])
    requires !(s[0] == '\\' && |s| > 1 && s[1] == '\n')
    requires t != "" && (t[0] == ' ' || t[0] == '\n')
    ensures Word(Strip(Body(s, OPEN).text) + t) == Read(Body(s, OPEN).text, t)
    ensures First(Body(s, OPEN).text) != '\n' && Clean(Body(s, OPEN).rest)
  {
    BodyAgain(s, OPEN, t);
    BodyClean(s, OPEN);
    QuotedBack(s[0]);
    var w := Body(s, OPEN).text;
    assert w[0] == s[0];
    if s[0] == '\\' {
      QuotedBack(s[1]);
      assert w[1] == Quoted(s[1]);
    }
  }

  lemma NewlineLine(tail: string)
    ensures PrLex(["\n"]) == "\n" && Lex("\n" + tail) == Line(["\n"], tail)
  {
    QuotedBack('\n');
    assert ("\n" + tail)[..1] == "\n" && ("\n" + tail)[1..] == tail;
  }

  // What is printed between two words.
  function Gap(more: seq<string>): string
    requires more != []
  {
    if First(more[0]) != '\n' then " " else ""
  }

  lemma PrLexMore(w: string, more: seq<string>, tail: string)
    requires more != []
    ensures PrLex([w] + more) + tail == Strip(w) + (Gap(more) + (PrLex(more) + tail))
  {
    assert ([w] + more)[1..] == more;
  }

  // One word read again in front of a line read again.
  lemma MoreLine(x: string, w: string, t: string, more: seq<string>, tail: string)
    requires Word(x) == Read(w, t) && First(w) != '\n' && Lex(t) == Line(more, tail)
    ensures Lex(x) == Line([w] + more, tail)
  {
    WordShrinks(x);
  }

  // Printed and read again, whatever input follows, a line is the same words.
  lemma {:induction false} LexAgain(s: string, tail: string)
    requires Clean(s) && Lex(s).Line?
    ensures Lex(PrLex(Lex(s).words) + tail) == Line(Lex(s).words, tail)
    ensures First(Lex(s).words[0]) == '\n' ==> First(PrLex(Lex(s).words)) == '\n'
    decreases |s|
  {
    WordShrinks(s);
    WordAgain(s, " ");
    var w, rest := Word(s).text, Word(s).rest;
    if First(w) == '\n' {
      NewlineLine(tail);
    } else {
      LexAgain(rest, tail);
      LexMore(s, w, rest, Lex(rest).words, tail);
    }
  }

  lemma LexMore(s: string, w: string, rest: string, more: seq<string>, tail: string)
    requires Clean(s) && Word(s) == Read(w, rest) && First(w) != '\n' && more != []
    requires Lex(PrLex(more) + tail) == Line(more, tail)
    requires First(more[0]) == '\n' ==> First(PrLex(more)) == '\n'
    ensures Lex(PrLex([w] + more) + tail) == Line([w] + more, tail)
  {
    var x := PrLex(more) + tail;
    var t := Gap(more) + x;
    PrLexMore(w, more, tail);
    WordAgain(s, t);
    SkipBlank(x);
    MoreLine(Strip(w) + t, w, t, more, tail);
  }

  lemma SkipBlank(x: string)
    ensures Lex(" " + x) == Lex(x) && "" + x == x
  {
    assert (" " + x)[1..] == x;
  }
}

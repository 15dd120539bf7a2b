// Alias expansion of a word list (bin/csh/parse.c: alias, asyntax, asyn0, asyn3). The
// positions are those of the list with its head at 0.
module AliasSpec {
  import opened Shared
  import Parser

  // What lex makes of an alias: its words but for the newline at the end, whether the
  // arguments were taken up by a history reference in it, and whether that one was bad.
  datatype Lexed = Lexed(words: seq<string>, redid: bool, bad: bool)

  // The alias table, and the reading of an alias for a command and its arguments.
  datatype Aliases = Aliases(has: string -> bool, lex: seq<string> -> Lexed)

  datatype AliasError = TooManyRP | Old | Loop

  // What a pass over the words comes to: nothing, an error, or an alias for the command
  // between two positions.
  datatype Outcome = Quiet | Bad | Hit(at: nat, upto: nat)

  datatype Pass = Same | Failed(e: AliasError) | Spliced(ws: seq<string>)

  predicate Separates(w: string) {
    First(w) == ';' || First(w) == '&' || First(w) == '\n'
  }

  predicate Ends(w: string) {
    Separates(w) || First(w) == '|'
  }

  // The last ) between lo and hi, lo when there is none.
  function LastClose(ws: seq<string>, lo: nat, hi: nat): (q: nat)
    requires lo < hi <= |ws|
    ensures lo <= q < hi
    decreases hi
  {
    if hi == lo + 1 then lo
    else if First(ws[hi - 1]) == ')' then hi - 1
    else LastClose(ws, lo, hi - 1)
  }

  function ASyntax(al: Aliases, ws: seq<string>, lo: nat, hi: nat): (o: Outcome)
    requires lo <= hi <= |ws|
    ensures o.Hit? ==> lo <= o.at < o.upto <= hi
    decreases hi - lo, 3, 0
  {
    if lo == hi then Quiet
    else if Separates(ws[lo]) then ASyntax(al, ws, lo + 1, hi)
    else ASyn0(al, ws, lo, lo, hi, 0)
  }

  // One command from lo on, the scan being at p with l parentheses open.
  function ASyn0(al: Aliases, ws: seq<string>, lo: nat, p: nat, hi: nat, l: nat): (o: Outcome)
    requires lo <= p <= hi <= |ws|
    ensures o.Hit? ==> lo <= o.at < o.upto <= hi
    decreases hi - lo, 2, hi - p
  {
    if p == hi then if l == 0 then ASyn3(al, ws, lo, hi) else Quiet
    else
      var c := First(ws[p]);
      if c == '(' then ASyn0(al, ws, lo, p + 1, hi, l + 1)
      else if c == ')' then if l == 0 then Bad else ASyn0(al, ws, lo, p + 1, hi, l - 1)
      else if c == '>' && p + 1 != hi && ws[p + 1] == "&" then ASyn0(al, ws, lo, p + 2, hi, l)
      else if Ends(ws[p]) && l == 0 then
        var o := ASyn3(al, ws, lo, p);
        if o == Quiet then ASyntax(al, ws, p + 1, hi) else o
      else ASyn0(al, ws, lo, p + 1, hi, l)
  }

  function ASyn3(al: Aliases, ws: seq<string>, lo: nat, hi: nat): (o: Outcome)
    requires lo <= hi <= |ws|
    ensures o.Hit? ==> lo <= o.at < o.upto <= hi
    decreases hi - lo, 1, 0
  {
    if lo == hi then Quiet
    else if First(ws[lo]) == '(' then
      var q := LastClose(ws, lo, hi);
      if q == lo || q == lo + 1 then Quiet else ASyn0(al, ws, lo + 1, lo + 1, q, 0)
    else if al.has(ws[lo]) then Hit(lo, hi)
    else Quiet
  }

  // Where a command ends: at the end of the segment, at an operator outside parentheses or
  // at a ) too many.
  datatype Stop = AtEnd | AtOperator | TooMany

  datatype Command = Command(stop: Stop, q: nat, l: nat)

  function CommandFrom(ws: seq<string>, p: nat, hi: nat, l: nat): (c: Command)
    requires p <= hi <= |ws|
    ensures p <= c.q <= hi && (c.stop == AtOperator ==> c.q < hi)
    decreases hi - p
  {
    if p == hi then Command(AtEnd, hi, l)
    else if First(ws[p]) == '(' then CommandFrom(ws, p + 1, hi, l + 1)
    else if First(ws[p]) == ')' then if l == 0 then Command(TooMany, p, l) else CommandFrom(ws, p + 1, hi, l - 1)
    else if First(ws[p]) == '>' && p + 1 != hi && ws[p + 1] == "&" then CommandFrom(ws, p + 2, hi, l)
    else if Ends(ws[p]) && l == 0 then Command(AtOperator, p, l)
    else CommandFrom(ws, p + 1, hi, l)
  }

  // The command up to the operator at q, and then what follows.
  function InTwo(al: Aliases, ws: seq<string>, lo: nat, q: nat, hi: nat): (o: Outcome)
    requires lo <= q < hi <= |ws|
    ensures o.Hit? ==> o.at < o.upto <= hi
  {
    var o := ASyn3(al, ws, lo, q);
    if o == Quiet then ASyntax(al, ws, q + 1, hi) else o
  }

  lemma {:induction false} CommandEnds(al: Aliases, ws: seq<string>, lo: nat, p: nat, hi: nat, l: nat)
    requires lo <= p <= hi <= |ws|
    ensures var c := CommandFrom(ws, p, hi, l);
            ASyn0(al, ws, lo, p, hi, l) ==
            match c.stop
            case AtEnd => if c.l == 0 then ASyn3(al, ws, lo, hi) else Quiet
            case TooMany => Bad
            case AtOperator => InTwo(al, ws, lo, c.q, hi)
    decreases hi - p
  {
    if p < hi {
      if First(ws[p]) == '(' {
        CommandEnds(al, ws, lo, p + 1, hi, l + 1);
      } else if First(ws[p]) == ')' {
        if l != 0 { CommandEnds(al, ws, lo, p + 1, hi, l - 1); }
      } else if First(ws[p]) == '>' && p + 1 != hi && ws[p + 1] == "&" {
        CommandEnds(al, ws, lo, p + 2, hi, l);
      } else if !(Ends(ws[p]) && l == 0) {
        CommandEnds(al, ws, lo, p + 1, hi, l);
      }
    }
  }

  // An alias that begins with its own name is kept from being found again.
  function Guarded(name: string, words: seq<string>): seq<string> {
    if name != "" && words != [] && words[0] == name
    then [[QUOTE as char] + words[0]] + words[1..] else words
  }

  // The old words in front, the words of the alias, and the rest.
  function Splice(al: Aliases, ws: seq<string>, o: Outcome): Pass
    requires o.Hit? ==> o.at < o.upto <= |ws|
  {
    match o
    case Quiet => Same
    case Bad => Failed(TooManyRP)
    case Hit(at, upto) =>
      var lexed := al.lex(ws[at..upto]);
      if lexed.bad then Failed(Old)
      else Spliced(ws[..at] + Guarded(ws[at], lexed.words) + ws[if lexed.redid then upto else at + 1..])
  }

  function OnePass(al: Aliases, ws: seq<string>): (r: Pass)
    requires ws != []
    ensures r.Spliced? ==> r.ws != []
  {
    Splice(al, ws, ASyntax(al, ws, 1, |ws|))
  }

  const ALEFT := 21

  // Passes until one changes nothing, as long as aleft lasts.
  function Expand(al: Aliases, ws: seq<string>, aleft: nat): Result<seq<string>, AliasError>
    requires ws != [] && aleft > 0
    decreases aleft
  {
    if aleft == 1 then Failure(Loop)
    else
      match OnePass(al, ws)
      case Same => Success(ws)
      case Failed(e) => Failure(e)
      case Spliced(next) => Expand(al, next, aleft - 1)
  }

  // The words after n splices, None when there are not that many.
  function AfterSplices(al: Aliases, ws: seq<string>, n: nat): (r: Option<seq<string>>)
    requires ws != []
    ensures r.Some? ==> r.value != []
    decreases n
  {
    if n == 0 then Some(ws)
    else
      match OnePass(al, ws)
      case Spliced(next) => AfterSplices(al, next, n - 1)
      case _ => None
  }

  // After n splices the words are r, and no alias applies to them.
  predicate SettlesAt(al: Aliases, ws: seq<string>, r: seq<string>, n: nat)
    requires ws != []
  {
    AfterSplices(al, ws, n) == Some(r) && r != [] && OnePass(al, r).Same?
  }

  // Expansion succeeds exactly when few enough splices lead to words that no alias applies to.
  lemma {:induction false} ExpandSettles(al: Aliases, ws: seq<string>, r: seq<string>, aleft: nat)
    requires ws != [] && aleft > 0
    ensures Expand(al, ws, aleft) == Success(r) <==> exists n: nat :: n < aleft - 1 && SettlesAt(al, ws, r, n)
    decreases aleft
  {
    if aleft > 1 {
      var pass := OnePass(al, ws);
      if pass.Spliced? {
        ExpandSettles(al, pass.ws, r, aleft - 1);
        forall n: nat ensures SettlesAt(al, ws, r, n + 1) == SettlesAt(al, pass.ws, r, n) {
        }
        assert !SettlesAt(al, ws, r, 0);
        if n: nat :| n < aleft - 1 && SettlesAt(al, ws, r, n) {
          assert n > 0;
          assert SettlesAt(al, pass.ws, r, n - 1);
        }
      } else {
        assert SettlesAt(al, ws, ws, 0) <==> pass.Same?;
        assert forall n: nat :: n > 0 ==> AfterSplices(al, ws, n).None?;
      }
    }
  }

  // It fails with a loop exactly when all the splices allowed can be made.
  lemma {:induction false} ExpandLoops(al: Aliases, ws: seq<string>, aleft: nat)
    requires ws != [] && aleft > 0
    ensures Expand(al, ws, aleft) == Failure(Loop) <==> AfterSplices(al, ws, aleft - 1).Some?
    decreases aleft
  {
    if aleft > 1 && OnePass(al, ws).Spliced? {
      ExpandLoops(al, OnePass(al, ws).ws, aleft - 1);
    }
  }

  // At most nineteen splices in an expansion that ends well; the twentieth is the loop.
  lemma TwentyIsALoop(al: Aliases, ws: seq<string>, r: seq<string>)
    requires ws != []
    ensures Expand(al, ws, ALEFT) == Success(r) <==> exists n: nat :: n < 20 && SettlesAt(al, ws, r, n)
    ensures Expand(al, ws, ALEFT) == Failure(Loop) <==> AfterSplices(al, ws, 20).Some?
  {
    ExpandSettles(al, ws, r, ALEFT);
    ExpandLoops(al, ws, ALEFT);
  }

  // ----- what the parser relies on -----

  // The parentheses open in front of position k, counted from lo on.
  function Open(ws: seq<string>, lo: nat, k: nat): int
    requires lo <= k <= |ws|
  {
    Parser.Depth(ws, k) - Parser.Depth(ws, lo)
  }

  // A quiet pass means that no ) comes before its (.
  lemma {:induction false} QuietSyntax(al: Aliases, ws: seq<string>, lo: nat, hi: nat)
    requires lo <= hi <= |ws| && ASyntax(al, ws, lo, hi) == Quiet
    ensures forall k :: lo <= k <= hi ==> Open(ws, lo, k) >= 0
    decreases hi - lo, 1, 0
  {
    if lo < hi {
      if Separates(ws[lo]) {
        QuietSyntax(al, ws, lo + 1, hi);
        assert forall k :: lo < k <= hi ==> Open(ws, lo + 1, k) == Open(ws, lo, k);
      } else {
        QuietCommand(al, ws, lo, lo, hi, 0);
      }
    }
  }

  lemma {:induction false} QuietCommand(al: Aliases, ws: seq<string>, lo: nat, p: nat, hi: nat, l: nat)
    requires lo <= p <= hi <= |ws| && ASyn0(al, ws, lo, p, hi, l) == Quiet
    ensures forall k :: p <= k <= hi ==> l + Open(ws, p, k) >= 0
    decreases hi - lo, 0, hi - p
  {
    if p < hi {
      var c := First(ws[p]);
      assert forall k :: p < k <= hi ==> Open(ws, p, k) == Open(ws, p, p + 1) + Open(ws, p + 1, k);
      if c == '(' {
        QuietCommand(al, ws, lo, p + 1, hi, l + 1);
      } else if c == ')' {
        QuietCommand(al, ws, lo, p + 1, hi, l - 1);
      } else if c == '>' && p + 1 != hi && ws[p + 1] == "&" {
        QuietCommand(al, ws, lo, p + 2, hi, l);
        assert forall k :: p + 1 < k <= hi ==> Open(ws, p, k) == Open(ws, p + 2, k);
      } else if Ends(ws[p]) && l == 0 {
        QuietSyntax(al, ws, p + 1, hi);
      } else {
        QuietCommand(al, ws, lo, p + 1, hi, l);
      }
    }
  }

  // Words that come out of alias expansion are fit for the parser.
  lemma ExpandedIsNonNegative(al: Aliases, ws: seq<string>, aleft: nat)
    requires ws != [] && aleft > 0 && Expand(al, ws, aleft).Success?
    ensures Expand(al, ws, aleft).value != [] && Parser.NonNegative(Expand(al, ws, aleft).value[1..])
  {
    var r := Expand(al, ws, aleft).value;
    ExpandSettles(al, ws, r, aleft);
    QuietSyntax(al, r, 1, |r|);
    forall k | 0 <= k < |r| ensures Parser.Depth(r[1..], k) >= 0 {
      Parser.DepthSuffix(r, 1, k);
      assert Open(r, 1, 1 + k) >= 0;
    }
  }

  // ----- an alias for its own name -----

  predicate Simple(w: string) {
    !Ends(w) && First(w) != '(' && First(w) != ')' && First(w) != '>'
  }

  lemma {:induction false} SimpleCommand(al: Aliases, ws: seq<string>, lo: nat, p: nat)
    requires lo <= p < |ws| && ws[|ws| - 1] == "\n" && lo < |ws| - 1
    requires forall k :: lo <= k < |ws| - 1 ==> Simple(ws[k])
    ensures ASyn0(al, ws, lo, p, |ws|, 0) == if al.has(ws[lo]) then Hit(lo, |ws| - 1) else Quiet
    decreases |ws| - p
  {
    if p < |ws| - 1 {
      SimpleCommand(al, ws, lo, p + 1);
    } else {
      assert ASyntax(al, ws, |ws|, |ws|) == Quiet;
    }
  }

  // A simple command whose alias begins with the command's own name is expanded just once.
  lemma SelfAliasOnce(al: Aliases, head: string, name: string, args: seq<string>)
    requires name != "" && Simple(name) && forall k :: 0 <= k < |args| ==> Simple(args[k])
    requires var lexed := al.lex([name] + args);
             al.has(name) && !lexed.bad && lexed.words != [] && lexed.words[0] == name
             && forall k :: 0 <= k < |lexed.words| ==> Simple(lexed.words[k])
    requires !al.has([QUOTE as char] + name)
    ensures var lexed := al.lex([name] + args);
            Expand(al, [head, name] + args + ["\n"], ALEFT)
            == Success([head, [QUOTE as char] + name] + lexed.words[1..] + (if lexed.redid then [] else args) + ["\n"])
  {
    var lexed := al.lex([name] + args);
    var ws := [head, name] + args + ["\n"];
    SimpleCommand(al, ws, 1, 1);
    assert ws[1..|ws| - 1] == [name] + args;
    var next := [head, [QUOTE as char] + name] + lexed.words[1..] + (if lexed.redid then [] else args) + ["\n"];
    assert ws[..1] + ([[QUOTE as char] + name] + lexed.words[1..]) + ws[if lexed.redid then |ws| - 1 else 2..] == next;
    assert OnePass(al, ws) == Spliced(next);
    forall k | 1 <= k < |next| - 1 ensures Simple(next[k]) {
    }
    SimpleCommand(al, next, 1, 1);
    assert OnePass(al, next) == Same;
    assert Expand(al, next, 20) == Success(next);
  }
}

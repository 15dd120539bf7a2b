// Alias expansion on the linked word list (bin/csh/parse.c: alias, asyntax, asyn0, asyn3).
// The jump out of a splice back to alias is a result handed up.
module AliasExpand {
  import opened Shared
  import opened WordRing
  import S = AliasSpec

  datatype Ended = Calm | Thrown | Error(e: S.AliasError)

  ghost predicate Fits(pass: S.Pass, e: Ended, ws: seq<string>) {
    match e
    case Calm => pass == S.Same
    case Thrown => pass == S.Spliced(ws)
    case Error(x) => pass == S.Failed(x)
  }

  // The words behind ring, from p1 at lo up to p2 at hi.
  ghost predicate Segment(p1: Wordent, p2: Wordent, ring: seq<Wordent>, ws: seq<string>, lo: nat, hi: nat)
    reads ring
  {
    && Linked(ring) && ws == WordsOf(ring)
    && 1 <= lo <= hi <= |ring| && p1 == Node(ring, lo) && p2 == Node(ring, hi)
  }

  lemma Stepped(p1: Wordent, p2: Wordent, ring: seq<Wordent>, ws: seq<string>, lo: nat, hi: nat)
    requires Segment(p1, p2, ring, ws, lo, hi)
    ensures p1 == p2 <==> lo == hi
    ensures lo < hi ==> p1.word == ws[lo] && p1 == ring[lo] && p1.next == Node(ring, lo + 1)
  {
    SameNode(ring, lo, hi);
    if lo < hi { Around(ring, lo); }
  }

  // One word of a command: it ends the command, or p', l' go on behind it.
  method OneWord(p: Wordent, l: nat, p2: Wordent, ghost ring: seq<Wordent>, ghost ws: seq<string>,
          ghost q: nat, ghost hi: nat)
      returns (done: bool, stop: S.Stop, p': Wordent, l': nat, ghost q': nat)
    requires Segment(p, p2, ring, ws, q, hi) && q < hi
    ensures done ==> S.CommandFrom(ws, q, hi, l) == S.Command(stop, q, l)
    ensures !done ==>
              && q < q' <= hi && p' == Node(ring, q')
              && S.CommandFrom(ws, q, hi, l) == S.CommandFrom(ws, q', hi, l')
    ensures First(ws[q]) == '\n' && l == 0 ==> done
  {
    Stepped(p, p2, ring, ws, q, hi);
    var c := First(p.word);
    done, stop, p', l', q' := false, S.AtEnd, p.next, l, q + 1;
    if c == '(' {
      l' := l + 1;
    } else if c == ')' {
      if l == 0 {
        done, stop := true, S.TooMany;
      } else {
        l' := l - 1;
      }
    } else if c == '>' {
      var amp := IsAmp(p.next, p2, ring, ws, q + 1, hi);
      if amp {
        Around(ring, q + 1);
        p', q' := p.next.next, q + 2;
      }
    } else if S.Ends(p.word) && l == 0 {
      done, stop := true, S.AtOperator;
    }
  }

  // Where the command that starts at p1 ends.
  method EndOfCommand(p1: Wordent, p2: Wordent, ghost ring: seq<Wordent>, ghost ws: seq<string>, ghost lo: nat,
          ghost hi: nat)
      returns (p: Wordent, stop: S.Stop, l: nat, ghost q: nat)
    requires Segment(p1, p2, ring, ws, lo, hi)
    ensures S.CommandFrom(ws, lo, hi, 0) == S.Command(stop, q, l) && lo <= q <= hi && p == Node(ring, q)
    ensures q > lo ==> First(ws[lo]) != '\n'
  {
    p, l, q, stop := p1, 0, lo, S.AtEnd;
    while p != p2
      invariant lo <= q <= hi && p == Node(ring, q)
      invariant S.CommandFrom(ws, lo, hi, 0) == S.CommandFrom(ws, q, hi, l)
      invariant if q == lo then l == 0 else First(ws[lo]) != '\n'
      decreases hi - q
    {
      var done, why, p', l';
      ghost var q';
      done, why, p', l', q' := OneWord(p, l, p2, ring, ws, q, hi);
      if done {
        stop := why;
        return;
      }
      p, l, q := p', l', q';
    }
    SameNode(ring, q, hi);
  }

  method IsAmp(p: Wordent, p2: Wordent, ghost ring: seq<Wordent>, ghost ws: seq<string>, ghost q: nat, ghost hi: nat)
      returns (b: bool)
    requires Segment(p, p2, ring, ws, q, hi)
    ensures b <==> q != hi && ws[q] == "&"
  {
    Stepped(p, p2, ring, ws, q, hi);
    b := p != p2 && p.word == "&";
  }

  // Back from p2 to the last ) behind p1; p1 when there is none.
  method BackToClose(p1: Wordent, p2: Wordent, ghost ring: seq<Wordent>, ghost ws: seq<string>, ghost lo: nat,
          ghost hi: nat)
      returns (p: Wordent, ghost q: nat)
    requires Segment(p1, p2, ring, ws, lo, hi) && lo < hi && First(ws[lo]) == '('
    ensures q == S.LastClose(ws, lo, hi) && p == ring[q]
  {
    Around(ring, hi - 1);
    p, q := p2.prev, hi - 1;
    while First(p.word) != ')'
      invariant lo <= q < hi && p == ring[q] && S.LastClose(ws, lo, hi) == S.LastClose(ws, lo, q + 1)
      decreases q
    {
      SameNode(ring, lo, q);
      if p == p1 {
        return;
      }
      Around(ring, q - 1);
      p := p.prev;
      q := q - 1;
    }
  }

  // The words of an alias, ready to be put in the place of the name.
  method AliasList(name: string, lexed: S.Lexed) returns (alout: Wordent, ghost list: seq<Wordent>)
    requires First(name) != '\n'
    ensures Linked(list) && alout == list[0] && |list| >= 2
    ensures forall k :: 0 <= k < |list| ==> fresh(list[k])
    ensures WordsOf(list)[1..|list| - 1] == S.Guarded(name, lexed.words)
  {
    alout, list := MakeList(lexed.words);
    ghost var ws := WordsOf(list);
    Around(list, 0);
    assert ws[1..][0] == ws[1];
    assert ws[1..|list| - 1] == lexed.words;
    if name != "" && name == alout.next.word {
      alout.next.word := [QUOTE as char] + alout.next.word;
      assert WordsOf(list) == ws[1 := [QUOTE as char] + name];
    }
  }

  // The list takes the place of the words from p1 up to p2.
  method Exchange(alout: Wordent, p1: Wordent, p2: Wordent, ghost ring: seq<Wordent>, ghost list: seq<Wordent>,
                  ghost at: nat, ghost k: nat)
      returns (ghost ring': seq<Wordent>)
    requires Linked(ring) && 1 <= at <= k <= |ring| && p1 == Node(ring, at) && p2 == Node(ring, k)
    requires Linked(list) && |list| >= 2 && alout == list[0] && Apart(ring, list)
    modifies ring, list
    ensures ring' == ring[..at] + list[1..|list| - 1] + ring[k..] && Linked(ring')
    ensures forall i :: 0 <= i < |ring| ==> ring[i].word == old(ring[i].word)
    ensures forall i :: 0 <= i < |list| ==> list[i].word == old(list[i].word)
  {
    var p := FreeNod(p1, p2, ring, at, k);
    ghost var rest := ring[..at] + ring[k..];
    assert rest[..at] == ring[..at] && rest[at..] == ring[k..];
    assert Apart(rest, list);
    Insert(p, alout, rest, at, list);
    ring' := ring[..at] + list[1..|list| - 1] + ring[k..];
  }

  lemma WordsJoined(ring: seq<Wordent>, list: seq<Wordent>, at: nat, k: nat)
    requires at <= k <= |ring| && |list| >= 2
    ensures WordsOf(ring[..at] + list[1..|list| - 1] + ring[k..])
         == WordsOf(ring)[..at] + WordsOf(list)[1..|list| - 1] + WordsOf(ring)[k..]
  {
  }

  // The alias of the command at p1 takes its place, and with a history reference also that
  // of its arguments.
  method SpliceAlias(lexed: S.Lexed, p1: Wordent, p2: Wordent, ghost ring: seq<Wordent>, ghost ws: seq<string>,
                     ghost at: nat, ghost upto: nat)
      returns (ghost ring': seq<Wordent>, ghost list: seq<Wordent>)
    requires Segment(p1, p2, ring, ws, at, upto) && at < upto && First(ws[at]) != '\n'
    modifies ring
    ensures |list| >= 2 && forall k :: 0 <= k < |list| ==> fresh(list[k])
    ensures Linked(ring') && ring' == ring[..at] + list[1..|list| - 1] + ring[if lexed.redid then upto else at + 1..]
    ensures WordsOf(ring') == ws[..at] + S.Guarded(ws[at], lexed.words) + ws[if lexed.redid then upto else at + 1..]
  {
    Stepped(p1, p2, ring, ws, at, upto);
    var alout;
    alout, list := AliasList(p1.word, lexed);
    ghost var k := if lexed.redid then upto else at + 1;
    ghost var new_ := WordsOf(list);
    ring' := Exchange(alout, p1, if lexed.redid then p2 else p1.next, ring, list, at, k);
    assert WordsOf(ring) == ws && WordsOf(list) == new_;
    WordsJoined(ring, list, at, k);
  }

  ghost predicate Mixed(ring': seq<Wordent>, ring: seq<Wordent>, list: seq<Wordent>) {
    forall k :: 0 <= k < |ring'| ==> ring'[k] in ring || ring'[k] in list
  }

  lemma MixedUp(ring: seq<Wordent>, list: seq<Wordent>, at: nat, k: nat)
    requires at <= k <= |ring| && |list| >= 2
    ensures Mixed(ring[..at] + list[1..|list| - 1] + ring[k..], ring, list)
  {
  }

  lemma ArgumentsOf(al: S.Aliases, ws: seq<string>, at: nat, upto: nat)
    requires at < upto <= |ws|
    ensures var lexed := al.lex(ws[at..upto]);
            S.Splice(al, ws, S.Hit(at, upto))
            == if lexed.bad then S.Failed(S.Old)
               else S.Spliced(ws[..at] + S.Guarded(ws[at], lexed.words) + ws[if lexed.redid then upto else at + 1..])
  {
  }

  // The words of the nodes from p1 up to p2, for the history references of an alias.
  method Arguments(p1: Wordent, p2: Wordent, ghost ring: seq<Wordent>, ghost ws: seq<string>, ghost lo: nat,
          ghost hi: nat)
      returns (args: seq<string>)
    requires Segment(p1, p2, ring, ws, lo, hi)
    ensures args == ws[lo..hi]
  {
    var p: Wordent := p1;
    ghost var q := lo;
    args := [];
    Stepped(p, p2, ring, ws, q, hi);
    while p != p2
      invariant lo <= q <= hi && Segment(p, p2, ring, ws, q, hi) && (p == p2 <==> q == hi)
      invariant args == ws[lo..q]
      decreases hi - q
    {
      Stepped(p, p2, ring, ws, q, hi);
      args := args + [p.word];
      p := p.next;
      q := q + 1;
      Stepped(p, p2, ring, ws, q, hi);
    }
  }

  // What a pass leaves: nothing changed, or the words with one alias spliced in.
  ghost predicate Left(pass: S.Pass, e: Ended, ring': seq<Wordent>, ring: seq<Wordent>, list: seq<Wordent>,
          ws: seq<string>)
    reads ring'
    requires ring != []
  {
    && Linked(ring') && ring'[0] == ring[0] && Mixed(ring', ring, list)
    && Fits(pass, e, WordsOf(ring'))
    && (!e.Thrown? ==> ring' == ring && WordsOf(ring') == ws)
  }

  method ASyn3(al: S.Aliases, p1: Wordent, p2: Wordent, ghost ring: seq<Wordent>, ghost ws: seq<string>,
          ghost lo: nat, ghost hi: nat)
      returns (e: Ended, ghost ring': seq<Wordent>, ghost list: seq<Wordent>)
    requires Segment(p1, p2, ring, ws, lo, hi) && (lo < hi ==> First(ws[lo]) != '\n')
    modifies ring
    ensures forall k :: 0 <= k < |list| ==> fresh(list[k])
    ensures Left(S.Splice(al, ws, S.ASyn3(al, ws, lo, hi)), e, ring', ring, list, ws)
    decreases hi - lo, 1
  {
    Stepped(p1, p2, ring, ws, lo, hi);
    e, ring', list := Calm, ring, [];
    if p1 == p2 {
      return;
    }
    if First(p1.word) == '(' {
      ghost var q;
      var p;
      p, q := BackToClose(p1, p2, ring, ws, lo, hi);
      SameNode(ring, lo, q);
      SameNode(ring, lo + 1, if q == lo then lo + 1 else q);
      if p == p1 || p == p1.next {
        return;
      }
      e, ring', list := ASyn0(al, p1.next, p, ring, ws, lo + 1, q);
      return;
    }
    if !al.has(p1.word) {
      return;
    }
    e, ring', list := SpliceCommand(al, p1, p2, ring, ws, lo, hi);
  }

  // The command has an alias.
  method SpliceCommand(al: S.Aliases, p1: Wordent, p2: Wordent, ghost ring: seq<Wordent>,
          ghost ws: seq<string>, ghost lo: nat, ghost hi: nat)
      returns (e: Ended, ghost ring': seq<Wordent>, ghost list: seq<Wordent>)
    requires Segment(p1, p2, ring, ws, lo, hi) && lo < hi && First(ws[lo]) != '\n'
    modifies ring
    ensures forall k :: 0 <= k < |list| ==> fresh(list[k])
    ensures Left(S.Splice(al, ws, S.Hit(lo, hi)), e, ring', ring, list, ws)
  {
    var args := Arguments(p1, p2, ring, ws, lo, hi);
    var lexed := al.lex(args);
    ArgumentsOf(al, ws, lo, hi);
    if lexed.bad {
      return Error(S.Old), ring, [];
    }
    ring', list := SpliceAlias(lexed, p1, p2, ring, ws, lo, hi);
    MixedUp(ring, list, lo, if lexed.redid then hi else lo + 1);
    e := Thrown;
  }

  method ASyn0(al: S.Aliases, p1: Wordent, p2: Wordent, ghost ring: seq<Wordent>, ghost ws: seq<string>,
          ghost lo: nat, ghost hi: nat)
      returns (e: Ended, ghost ring': seq<Wordent>, ghost list: seq<Wordent>)
    requires Segment(p1, p2, ring, ws, lo, hi)
    modifies ring
    ensures forall k :: 0 <= k < |list| ==> fresh(list[k])
    ensures Left(S.Splice(al, ws, S.ASyn0(al, ws, lo, lo, hi, 0)), e, ring', ring, list, ws)
    decreases hi - lo, 2
  {
    ghost var q;
    var p, stop, l;
    p, stop, l, q := EndOfCommand(p1, p2, ring, ws, lo, hi);
    S.CommandEnds(al, ws, lo, lo, hi, 0);
    e, ring', list := Calm, ring, [];
    match stop {
      case TooMany => e := Error(S.TooManyRP);
      case AtEnd =>
        if l == 0 {
          e, ring', list := ASyn3(al, p1, p2, ring, ws, lo, hi);
        }
      case AtOperator =>
        e, ring', list := AsynTwo(al, p1, p, p2, ring, ws, lo, q, hi);
    }
  }

  // The command up to the operator at p, and the words behind it.
  method AsynTwo(al: S.Aliases, p1: Wordent, p: Wordent, p2: Wordent, ghost ring: seq<Wordent>, ghost ws: seq<string>,
                 ghost lo: nat, ghost q: nat, ghost hi: nat)
      returns (e: Ended, ghost ring': seq<Wordent>, ghost list: seq<Wordent>)
    requires Segment(p1, p2, ring, ws, lo, hi) && lo <= q < hi && p == ring[q] && (q > lo ==> First(ws[lo]) != '\n')
    modifies ring
    ensures forall k :: 0 <= k < |list| ==> fresh(list[k])
    ensures Left(S.Splice(al, ws, S.InTwo(al, ws, lo, q, hi)), e, ring', ring, list, ws)
    decreases hi - lo, 1
  {
    e, ring', list := ASyn3(al, p1, p, ring, ws, lo, q);
    if e == Calm {
      Around(ring, q);
      e, ring', list := ASyntax(al, p.next, p2, ring, ws, q + 1, hi);
    }
  }

  method ASyntax(al: S.Aliases, p1: Wordent, p2: Wordent, ghost ring: seq<Wordent>, ghost ws: seq<string>,
          ghost lo: nat, ghost hi: nat)
      returns (e: Ended, ghost ring': seq<Wordent>, ghost list: seq<Wordent>)
    requires Segment(p1, p2, ring, ws, lo, hi)
    modifies ring
    ensures forall k :: 0 <= k < |list| ==> fresh(list[k])
    ensures Left(S.Splice(al, ws, S.ASyntax(al, ws, lo, hi)), e, ring', ring, list, ws)
    decreases hi - lo, 3
  {
    var p;
    ghost var q;
    p, q := SkipSeparators(al, p1, p2, ring, ws, lo, hi);
    if p != p2 {
      e, ring', list := ASyn0(al, p, p2, ring, ws, q, hi);
    } else {
      e, ring', list := Calm, ring, [];
    }
  }

  method SkipSeparators(ghost al: S.Aliases, p1: Wordent, p2: Wordent, ghost ring: seq<Wordent>, ghost ws: seq<string>,
                        ghost lo: nat, ghost hi: nat)
      returns (p: Wordent, ghost q: nat)
    requires Segment(p1, p2, ring, ws, lo, hi)
    ensures lo <= q <= hi && p == Node(ring, q) && (p == p2 <==> q == hi)
    ensures S.ASyntax(al, ws, lo, hi) == if q == hi then S.Quiet else S.ASyn0(al, ws, q, q, hi, 0)
  {
    p, q := p1, lo;
    Stepped(p, p2, ring, ws, q, hi);
    while p != p2
      invariant lo <= q <= hi && Segment(p, p2, ring, ws, q, hi) && (p == p2 <==> q == hi)
      invariant S.ASyntax(al, ws, lo, hi) == S.ASyntax(al, ws, q, hi)
      decreases hi - q
    {
      Stepped(p, p2, ring, ws, q, hi);
      if !S.Separates(p.word) {
        return;
      }
      p := p.next;
      q := q + 1;
      Stepped(p, p2, ring, ws, q, hi);
    }
  }

  // All nodes are of the first list or made since.
  ghost predicate Within(ring': seq<Wordent>, first: seq<Wordent>, made: set<Wordent>) {
    forall k :: 0 <= k < |ring'| ==> ring'[k] in first || ring'[k] in made
  }

  lemma MixedWithin(ring': seq<Wordent>, ring: seq<Wordent>, list: seq<Wordent>, first: seq<Wordent>,
          made: set<Wordent>)
    requires Mixed(ring', ring, list) && Within(ring, first, made)
    ensures Within(ring', first, made + set o | o in list)
  {
    forall k | 0 <= k < |ring'| ensures ring'[k] in first || ring'[k] in made + set o | o in list {
      if ring'[k] in ring {
        var i :| 0 <= i < |ring| && ring[i] == ring'[k];
      }
    }
  }

  // ----- passes until one changes nothing -----

  type Outcomes = (seq<string>, nat) -> Result<seq<string>, S.AliasError>

  // Words with n passes left.
  predicate Reached(w: seq<string>, n: nat) {
    n > 0
  }

  // What words come to is what the words come to that a pass makes of them.
  ghost predicate PassByPass(run: Outcomes, al: S.Aliases) {
    forall w, n: nat {:trigger Reached(w, n)} :: Reached(w, n) && w != [] ==>
      run(w, n) ==
      if n == 1 then Failure(S.Loop)
      else
        match S.OnePass(al, w)
        case Same => Success(w)
        case Failed(e) => Failure(e)
        case Spliced(next) => run(next, n - 1)
  }

  lemma AfterPass(run: Outcomes, al: S.Aliases, w: seq<string>, n: nat, e: Ended, next: seq<string>)
    requires PassByPass(run, al) && w != [] && n > 1 && Fits(S.OnePass(al, w), e, next)
    ensures match e
            case Calm => run(w, n) == Success(w)
            case Error(x) => run(w, n) == Failure(x)
            case Thrown => run(w, n) == run(next, n - 1)
  {
    assert Reached(w, n);
  }

  lemma NoPassLeft(run: Outcomes, al: S.Aliases, w: seq<string>)
    requires PassByPass(run, al) && w != []
    ensures run(w, 1) == Failure(S.Loop)
  {
    assert Reached(w, 1);
  }

  // One pass over the whole list.
  method OnePass(al: S.Aliases, lexp: Wordent, ghost ring: seq<Wordent>, ghost ws: seq<string>,
          ghost first: seq<Wordent>, ghost made: set<Wordent>, ghost run: Outcomes, ghost n: nat)
      returns (e: Ended, ghost ring': seq<Wordent>, ghost made': set<Wordent>)
    requires Linked(ring) && lexp == ring[0] && ws == WordsOf(ring) && Within(ring, first, made)
    requires PassByPass(run, al) && n > 1
    modifies first, made
    ensures Linked(ring') && ring'[0] == lexp
    ensures match e
            case Calm => run(ws, n) == Success(WordsOf(ring'))
            case Error(x) => run(ws, n) == Failure(x)
            case Thrown => run(ws, n) == run(WordsOf(ring'), n - 1)
    ensures Within(ring', first, made') && made <= made' && fresh(made' - made)
  {
    Around(ring, 0);
    ghost var list;
    e, ring', list := ASyntax(al, lexp.next, lexp, ring, ws, 1, |ring|);
    AfterPass(run, al, ws, n, e, WordsOf(ring'));
    MixedWithin(ring', ring, list, first, made);
    made' := made + set o | o in list;
  }

  function Expanding(al: S.Aliases): Outcomes {
    (w: seq<string>, n: nat) => if w != [] && n > 0 then S.Expand(al, w, n) else Failure(S.Loop)
  }

  lemma ExpandingIsPassByPass(al: S.Aliases)
    ensures PassByPass(Expanding(al), al)
  {
  }

  // Expand the aliases of the whole list, a splice starting it over. The words are in the
  // end those of the specification, and the list is a well formed circle all the time.
  method Alias(al: S.Aliases, lexp: Wordent, ghost ring: seq<Wordent>, ghost ws: seq<string>)
      returns (e: Option<S.AliasError>, ghost ring': seq<Wordent>)
    requires Linked(ring) && lexp == ring[0] && ws == WordsOf(ring)
    modifies ring
    ensures Linked(ring') && ring'[0] == lexp
    ensures S.Expand(al, ws, S.ALEFT) == match e case None => Success(WordsOf(ring')) case Some(x) => Failure(x)
  {
    ExpandingIsPassByPass(al);
    e, ring' := Passes(al, lexp, ring, ws, Expanding(al));
  }

  method Passes(al: S.Aliases, lexp: Wordent, ghost ring: seq<Wordent>, ghost ws: seq<string>, ghost run: Outcomes)
      returns (e: Option<S.AliasError>, ghost ring': seq<Wordent>)
    requires Linked(ring) && lexp == ring[0] && ws == WordsOf(ring) && PassByPass(run, al)
    modifies ring
    ensures Linked(ring') && ring'[0] == lexp
    ensures run(ws, S.ALEFT) == match e case None => Success(WordsOf(ring')) case Some(x) => Failure(x)
  {
    var aleft := S.ALEFT - 1;
    ring' := ring;
    ghost var now: seq<string>, made: set<Wordent> := ws, {};
    while aleft != 0
      invariant 0 <= aleft && Linked(ring') && ring'[0] == lexp && now == WordsOf(ring')
      invariant Within(ring', ring, made) && fresh(made)
      invariant run(ws, S.ALEFT) == run(now, aleft + 1)
      decreases aleft
    {
      var ended;
      ended, ring', made := OnePass(al, lexp, ring', now, ring, made, run, aleft + 1);
      match ended {
        case Calm =>
          e := None;
          return;
        case Error(x) =>
          e := Some(x);
          return;
        case Thrown =>
          now := WordsOf(ring');
          aleft := aleft - 1;
      }
    }
    NoPassLeft(run, al, now);
    e := Some(S.Loop);
  }
}

// Which words alias expansion looks up (bin/csh/parse.c: asyntax, asyn0, asyn3), told by
// their places.
module AliasStarts {
  import opened Shared
  import opened AliasSpec

  predicate Begins(w: string, c: char) {
    w != "" && w[0] == c
  }

  // An operator between the commands of the segment from lo on: outside parentheses, and
  // not the & of >&.
  predicate Operator(ws: seq<string>, lo: nat, j: nat) {
    && lo <= j < |ws| && Open(ws, lo, j) == 0
    && (Begins(ws[j], ';') || Begins(ws[j], '&') || Begins(ws[j], '|') || Begins(ws[j], '\n'))
    && !(ws[j] == "&" && j > lo && Begins(ws[j - 1], '>'))
  }

  // A command starts at s: at the front of the segment, or behind an operator.
  predicate Starts(ws: seq<string>, lo: nat, s: nat) {
    lo <= s < |ws| && (s == lo || Operator(ws, lo, s - 1)) && !Operator(ws, lo, s)
  }

  // It ends at e: at the next operator, or at the end with no parenthesis left open.
  predicate EndsAt(ws: seq<string>, lo: nat, hi: nat, s: nat, e: nat) {
    && lo <= s <= e <= hi <= |ws| && (forall j :: s <= j < e ==> !Operator(ws, lo, j))
    && if e < hi then Operator(ws, lo, e) else Open(ws, lo, hi) == 0
  }

  // The last ) of a command.
  predicate ClosesAt(ws: seq<string>, s: nat, e: nat, q: nat) {
    s < q < e <= |ws| && Begins(ws[q], ')') && forall j :: q < j < e ==> !Begins(ws[j], ')')
  }

  // The word at k is looked up, for the command up to e: it starts a command of the segment,
  // or of what stands in the parentheses that start one.
  ghost predicate LookedUp(ws: seq<string>, lo: nat, hi: nat, k: nat, e: nat)
    decreases hi - lo, 1
  {
    exists s: nat, t: nat ::
      lo <= s < t <= hi && Starts(ws, lo, s) && EndsAt(ws, lo, hi, s, t) && Within(ws, s, t, k, e)
  }

  ghost predicate Within(ws: seq<string>, s: nat, t: nat, k: nat, e: nat)
    requires s < t <= |ws|
    decreases t - s, 0
  {
    if Begins(ws[s], '(') then exists q: nat :: ClosesAt(ws, s, t, q) && LookedUp(ws, s + 1, q, k, e)
    else k == s && e == t
  }

  // What an outcome says of the words that are looked up in a segment.
  ghost predicate Answers(al: Aliases, ws: seq<string>, o: Outcome, lo: nat, hi: nat) {
    match o
    case Bad => true
    case Quiet => forall k: nat, e: nat :: LookedUp(ws, lo, hi, k, e) ==> k < |ws| && !al.has(ws[k])
    case Hit(at, upto) =>
      && LookedUp(ws, lo, hi, at, upto) && at < |ws| && al.has(ws[at])
      && forall k: nat, e: nat :: k < at && LookedUp(ws, lo, hi, k, e) ==> k < |ws| && !al.has(ws[k])
  }

  // And in one command.
  ghost predicate AnswersOwn(al: Aliases, ws: seq<string>, o: Outcome, s: nat, t: nat)
    requires s < t <= |ws|
  {
    match o
    case Bad => true
    case Quiet => forall k: nat, e: nat :: Within(ws, s, t, k, e) ==> k < |ws| && !al.has(ws[k])
    case Hit(at, upto) =>
      && Within(ws, s, t, at, upto) && at < |ws| && al.has(ws[at])
      && forall k: nat, e: nat :: k < at && Within(ws, s, t, k, e) ==> k < |ws| && !al.has(ws[k])
  }

  // ----- the scan finds the end of a command -----

  // No & of a >& stands at p.
  predicate Between(ws: seq<string>, lo: nat, p: nat) {
    p < |ws| && p > lo && ws[p] == "&" ==> !Begins(ws[p - 1], '>')
  }

  lemma NoOperator(ws: seq<string>, lo: nat, p: nat)
    requires lo <= p < |ws| && (First(ws[p]) == '(' || First(ws[p]) == ')' || !Ends(ws[p]) || Open(ws, lo, p) != 0)
    ensures !Operator(ws, lo, p)
  {
  }

  lemma {:induction false} ScanEnds(ws: seq<string>, lo: nat, p: nat, hi: nat, l: nat)
    requires lo <= p <= hi <= |ws| && l == Open(ws, lo, p) && (p < hi ==> Between(ws, lo, p))
    ensures var c := CommandFrom(ws, p, hi, l);
            && (c.stop == AtOperator ==> Operator(ws, lo, c.q) && forall j :: p <= j < c.q ==> !Operator(ws, lo, j))
            && (c.stop == AtEnd ==> c.l == Open(ws, lo, hi) && forall j :: p <= j < hi ==> !Operator(ws, lo, j))
    decreases hi - p
  {
    if p < hi {
      var w := ws[p];
      if First(w) == '(' {
        NoOperator(ws, lo, p);
        ScanEnds(ws, lo, p + 1, hi, l + 1);
      } else if First(w) == ')' {
        NoOperator(ws, lo, p);
        if l != 0 { ScanEnds(ws, lo, p + 1, hi, l - 1); }
      } else if First(w) == '>' && p + 1 != hi && ws[p + 1] == "&" {
        NoOperator(ws, lo, p);
        assert !Operator(ws, lo, p + 1);
        assert Open(ws, lo, p + 1) == l && Open(ws, lo, p + 2) == l;
        ScanEnds(ws, lo, p + 2, hi, l);
      } else if !(Ends(w) && l == 0) {
        NoOperator(ws, lo, p);
        ScanEnds(ws, lo, p + 1, hi, l);
      }
    }
  }

  // ----- the commands of a segment -----

  lemma Later(ws: seq<string>, lo: nat, e: nat, j: nat)
    requires Operator(ws, lo, e) && e < j < |ws|
    ensures Operator(ws, lo, j) <==> Operator(ws, e + 1, j)
  {
    assert Open(ws, lo, e + 1) == 0;
  }

  lemma LaterEnd(ws: seq<string>, lo: nat, e: nat, hi: nat)
    requires Operator(ws, lo, e) && e < hi <= |ws|
    ensures Open(ws, lo, hi) == Open(ws, e + 1, hi)
  {
    assert Open(ws, lo, e + 1) == 0;
  }

  lemma LaterCommand(ws: seq<string>, lo: nat, e: nat, hi: nat, s: nat, t: nat)
    requires Operator(ws, lo, e) && e < s < t <= hi <= |ws|
    ensures Starts(ws, lo, s) && EndsAt(ws, lo, hi, s, t) <==> Starts(ws, e + 1, s) && EndsAt(ws, e + 1, hi, s, t)
  {
    var next := e + 1;
    LaterEnd(ws, lo, e, hi);
    forall j: nat | e < j < |ws| ensures Operator(ws, lo, j) <==> Operator(ws, next, j) { Later(ws, lo, e, j); }
    assert Starts(ws, lo, s) <==> Starts(ws, next, s);
    assert EndsAt(ws, lo, hi, s, t) <==> EndsAt(ws, next, hi, s, t);
  }

  // The command in front of the first operator, and those behind it.
  lemma InTwoParts(ws: seq<string>, lo: nat, e: nat, hi: nat, k: nat, x: nat)
    requires lo <= e < hi <= |ws| && Operator(ws, lo, e) && forall j :: lo <= j < e ==> !Operator(ws, lo, j)
    ensures LookedUp(ws, lo, hi, k, x) <==> (lo < e && Within(ws, lo, e, k, x)) || LookedUp(ws, e + 1, hi, k, x)
  {
    if s: nat, t: nat :| lo <= s < t <= hi && Starts(ws, lo, s) && EndsAt(ws, lo, hi, s, t) && Within(ws, s, t, k, x) {
      if s > e {
        LaterCommand(ws, lo, e, hi, s, t);
      } else {
        assert s == lo && s != e && t == e;
      }
    }
    if lo < e && Within(ws, lo, e, k, x) {
      assert Starts(ws, lo, lo) && EndsAt(ws, lo, hi, lo, e);
    }
    if s: nat, t: nat :| e + 1 <= s < t <= hi && Starts(ws, e + 1, s) && EndsAt(ws, e + 1, hi, s, t)
                         && Within(ws, s, t, k, x) {
      LaterCommand(ws, lo, e, hi, s, t);
    }
  }

  lemma OneCommand(ws: seq<string>, lo: nat, hi: nat, k: nat, x: nat)
    requires lo < hi <= |ws| && forall j :: lo <= j < hi ==> !Operator(ws, lo, j)
    ensures LookedUp(ws, lo, hi, k, x) <==> Open(ws, lo, hi) == 0 && Within(ws, lo, hi, k, x)
  {
    if Open(ws, lo, hi) == 0 && Within(ws, lo, hi, k, x) {
      assert Starts(ws, lo, lo) && EndsAt(ws, lo, hi, lo, hi);
    }
  }

  lemma {:induction false} Bounds(ws: seq<string>, lo: nat, hi: nat, k: nat, x: nat)
    requires LookedUp(ws, lo, hi, k, x)
    ensures lo <= k < x <= hi <= |ws|
    decreases hi - lo, 1
  {
    var s: nat, t: nat :| lo <= s < t <= hi && Starts(ws, lo, s) && EndsAt(ws, lo, hi, s, t) && Within(ws, s, t, k, x);
    BoundsWithin(ws, s, t, k, x);
  }

  lemma {:induction false} BoundsWithin(ws: seq<string>, s: nat, t: nat, k: nat, x: nat)
    requires s < t <= |ws| && Within(ws, s, t, k, x)
    ensures s <= k < x <= t
    decreases t - s, 0
  {
    if Begins(ws[s], '(') {
      var q: nat :| ClosesAt(ws, s, t, q) && LookedUp(ws, s + 1, q, k, x);
      Bounds(ws, s + 1, q, k, x);
    }
  }

  // ----- a pass -----

  lemma {:induction false} LastCloseIs(ws: seq<string>, s: nat, hi: nat)
    requires s < hi <= |ws|
    ensures var q := LastClose(ws, s, hi);
            && (q > s ==> ClosesAt(ws, s, hi, q))
            && (q == s ==> forall j :: s < j < hi ==> !Begins(ws[j], ')'))
    decreases hi
  {
    if hi > s + 1 && First(ws[hi - 1]) != ')' { LastCloseIs(ws, s, hi - 1); }
  }

  lemma {:induction false} PassSyntax(al: Aliases, ws: seq<string>, lo: nat, hi: nat)
    requires lo <= hi <= |ws|
    ensures Answers(al, ws, ASyntax(al, ws, lo, hi), lo, hi)
    decreases hi - lo, 3
  {
    if lo < hi {
      if Separates(ws[lo]) {
        PassSyntax(al, ws, lo + 1, hi);
        forall k: nat, x: nat ensures LookedUp(ws, lo, hi, k, x) <==> LookedUp(ws, lo + 1, hi, k, x) {
          InTwoParts(ws, lo, lo, hi, k, x);
        }
      } else {
        PassCommands(al, ws, lo, hi);
      }
    }
  }

  lemma {:induction false} PassCommands(al: Aliases, ws: seq<string>, lo: nat, hi: nat)
    requires lo <= hi <= |ws|
    ensures Answers(al, ws, ASyn0(al, ws, lo, lo, hi, 0), lo, hi)
    decreases hi - lo, 2
  {
    var c := CommandFrom(ws, lo, hi, 0);
    CommandEnds(al, ws, lo, lo, hi, 0);
    ScanEnds(ws, lo, lo, hi, 0);
    match c.stop {
      case TooMany =>
      case AtEnd =>
        if lo < hi { PassAlone(al, ws, lo, hi); }
      case AtOperator =>
        if lo < c.q { PassOne(al, ws, lo, c.q); }
        PassSyntax(al, ws, c.q + 1, hi);
        PassInTwo(al, ws, lo, c.q, hi);
    }
  }

  lemma {:induction false} PassAlone(al: Aliases, ws: seq<string>, lo: nat, hi: nat)
    requires lo < hi <= |ws| && forall j :: lo <= j < hi ==> !Operator(ws, lo, j)
    ensures Answers(al, ws, if Open(ws, lo, hi) == 0 then ASyn3(al, ws, lo, hi) else Quiet, lo, hi)
    decreases hi - lo, 1
  {
    PassOne(al, ws, lo, hi);
    forall k: nat, x: nat ensures LookedUp(ws, lo, hi, k, x) <==> Open(ws, lo, hi) == 0 && Within(ws, lo, hi, k, x) {
      OneCommand(ws, lo, hi, k, x);
    }
  }

  lemma PassInTwo(al: Aliases, ws: seq<string>, lo: nat, e: nat, hi: nat)
    requires lo <= e < hi <= |ws| && Operator(ws, lo, e) && forall j :: lo <= j < e ==> !Operator(ws, lo, j)
    requires lo < e ==> AnswersOwn(al, ws, ASyn3(al, ws, lo, e), lo, e)
    requires Answers(al, ws, ASyntax(al, ws, e + 1, hi), e + 1, hi)
    ensures Answers(al, ws, InTwo(al, ws, lo, e, hi), lo, hi)
  {
    var o := ASyn3(al, ws, lo, e);
    if o.Hit? {
      PassInFront(al, ws, lo, e, hi, o);
    } else if o.Quiet? {
      PassBehind(al, ws, lo, e, hi, ASyntax(al, ws, e + 1, hi));
    }
  }

  lemma PassInFront(al: Aliases, ws: seq<string>, lo: nat, e: nat, hi: nat, o: Outcome)
    requires lo < e < hi <= |ws| && Operator(ws, lo, e) && forall j :: lo <= j < e ==> !Operator(ws, lo, j)
    requires o.Hit? && AnswersOwn(al, ws, o, lo, e)
    ensures Answers(al, ws, o, lo, hi)
  {
    BoundsWithin(ws, lo, e, o.at, o.upto);
    InTwoParts(ws, lo, e, hi, o.at, o.upto);
    forall k: nat, x: nat | k < o.at && LookedUp(ws, lo, hi, k, x) ensures Within(ws, lo, e, k, x) {
      InTwoParts(ws, lo, e, hi, k, x);
      if LookedUp(ws, e + 1, hi, k, x) { Bounds(ws, e + 1, hi, k, x); }
    }
  }

  lemma PassBehind(al: Aliases, ws: seq<string>, lo: nat, e: nat, hi: nat, o: Outcome)
    requires lo <= e < hi <= |ws| && Operator(ws, lo, e) && forall j :: lo <= j < e ==> !Operator(ws, lo, j)
    requires lo < e ==> AnswersOwn(al, ws, Quiet, lo, e)
    requires Answers(al, ws, o, e + 1, hi)
    ensures Answers(al, ws, o, lo, hi)
  {
    forall k: nat, x: nat | LookedUp(ws, lo, hi, k, x)
      ensures (lo < e && Within(ws, lo, e, k, x)) || LookedUp(ws, e + 1, hi, k, x)
    {
      InTwoParts(ws, lo, e, hi, k, x);
    }
    if o.Hit? { InTwoParts(ws, lo, e, hi, o.at, o.upto); }
  }

  lemma {:induction false} PassOne(al: Aliases, ws: seq<string>, s: nat, t: nat)
    requires s < t <= |ws|
    ensures AnswersOwn(al, ws, ASyn3(al, ws, s, t), s, t)
    decreases t - s, 0
  {
    if Begins(ws[s], '(') {
      var q := LastClose(ws, s, t);
      LastCloseIs(ws, s, t);
      if q > s {
        forall k: nat, x: nat ensures Within(ws, s, t, k, x) <==> LookedUp(ws, s + 1, q, k, x) {
          OneGroup(ws, s, t, q, k, x);
        }
        if q > s + 1 { PassCommands(al, ws, s + 1, q); }
      }
    }
  }

  lemma OneGroup(ws: seq<string>, s: nat, t: nat, q: nat, k: nat, x: nat)
    requires s < t <= |ws| && Begins(ws[s], '(') && ClosesAt(ws, s, t, q)
    ensures Within(ws, s, t, k, x) <==> LookedUp(ws, s + 1, q, k, x)
  {
    if r: nat :| ClosesAt(ws, s, t, r) && LookedUp(ws, s + 1, r, k, x) { assert r == q; }
  }

  // ----- a ) too many -----

  // The segments a pass goes over: the words, and what stands in the parentheses that start
  // a command of such a segment.
  ghost predicate GoneOver(ws: seq<string>, lo: nat, hi: nat, a: nat, b: nat)
    decreases hi - lo, 1
  {
    (a == lo && b == hi)
    || exists s: nat, t: nat ::
         lo <= s < t <= hi && Starts(ws, lo, s) && EndsAt(ws, lo, hi, s, t) && Inside(ws, s, t, a, b)
  }

  ghost predicate Inside(ws: seq<string>, s: nat, t: nat, a: nat, b: nat)
    requires s < t <= |ws|
    decreases t - s, 0
  {
    Begins(ws[s], '(') && exists q: nat :: ClosesAt(ws, s, t, q) && GoneOver(ws, s + 1, q, a, b)
  }

  // A ) in a segment that closes none of its parentheses.
  predicate ClosesNone(ws: seq<string>, a: nat, b: nat) {
    a <= b <= |ws| && exists j :: a <= j < b && Begins(ws[j], ')') && Open(ws, a, j) == 0
  }

  lemma {:induction false} ScanTooMany(ws: seq<string>, lo: nat, p: nat, hi: nat, l: nat)
    requires lo <= p <= hi <= |ws| && l == Open(ws, lo, p) && CommandFrom(ws, p, hi, l).stop == TooMany
    ensures ClosesNone(ws, lo, hi)
    decreases hi - p
  {
    var w := ws[p];
    if First(w) == '(' {
      ScanTooMany(ws, lo, p + 1, hi, l + 1);
    } else if First(w) == ')' {
      if l != 0 { ScanTooMany(ws, lo, p + 1, hi, l - 1); }
    } else if First(w) == '>' && p + 1 != hi && ws[p + 1] == "&" {
      assert Open(ws, lo, p + 1) == l && Open(ws, lo, p + 2) == l;
      ScanTooMany(ws, lo, p + 2, hi, l);
    } else {
      ScanTooMany(ws, lo, p + 1, hi, l);
    }
  }

  lemma OuterCommand(ws: seq<string>, lo: nat, hi: nat, a: nat, b: nat) returns (s: nat, t: nat)
    requires GoneOver(ws, lo, hi, a, b) && !(a == lo && b == hi)
    ensures lo <= s < t <= hi && Starts(ws, lo, s) && EndsAt(ws, lo, hi, s, t) && Inside(ws, s, t, a, b)
  {
    s, t :| lo <= s < t <= hi && Starts(ws, lo, s) && EndsAt(ws, lo, hi, s, t) && Inside(ws, s, t, a, b);
  }

  // The outermost segment shrinks as its commands are passed.
  lemma SegmentLater(ws: seq<string>, lo: nat, e: nat, hi: nat, a: nat, b: nat)
    requires lo <= e < hi <= |ws| && Operator(ws, lo, e) && GoneOver(ws, e + 1, hi, a, b) && ClosesNone(ws, a, b)
    ensures exists x: nat, y: nat :: GoneOver(ws, lo, hi, x, y) && ClosesNone(ws, x, y)
  {
    if a == e + 1 && b == hi {
      var j :| a <= j < b && Begins(ws[j], ')') && Open(ws, a, j) == 0;
      assert Open(ws, lo, e + 1) == 0 && Open(ws, lo, j) == 0;
      assert GoneOver(ws, lo, hi, lo, hi) && ClosesNone(ws, lo, hi);
    } else {
      var s, t := OuterCommand(ws, e + 1, hi, a, b);
      LaterCommand(ws, lo, e, hi, s, t);
      assert GoneOver(ws, lo, hi, a, b);
    }
  }

  ghost predicate SomeTooMany(ws: seq<string>, lo: nat, hi: nat) {
    exists a: nat, b: nat :: GoneOver(ws, lo, hi, a, b) && ClosesNone(ws, a, b)
  }

  lemma {:induction false} BadSyntax(al: Aliases, ws: seq<string>, lo: nat, hi: nat)
    requires lo <= hi <= |ws| && ASyntax(al, ws, lo, hi) == Bad
    ensures SomeTooMany(ws, lo, hi)
    decreases hi - lo, 2
  {
    if Separates(ws[lo]) {
      BadSyntax(al, ws, lo + 1, hi);
      var a: nat, b: nat :| GoneOver(ws, lo + 1, hi, a, b) && ClosesNone(ws, a, b);
      SegmentLater(ws, lo, lo, hi, a, b);
    } else {
      BadCommands(al, ws, lo, hi);
    }
  }

  lemma {:induction false} BadCommands(al: Aliases, ws: seq<string>, lo: nat, hi: nat)
    requires lo <= hi <= |ws| && ASyn0(al, ws, lo, lo, hi, 0) == Bad
    ensures SomeTooMany(ws, lo, hi)
    decreases hi - lo, 1
  {
    var c := CommandFrom(ws, lo, hi, 0);
    CommandEnds(al, ws, lo, lo, hi, 0);
    ScanEnds(ws, lo, lo, hi, 0);
    match c.stop {
      case TooMany =>
        ScanTooMany(ws, lo, lo, hi, 0);
        assert GoneOver(ws, lo, hi, lo, hi);
      case AtEnd =>
        BadOne(al, ws, lo, hi, hi);
      case AtOperator =>
        if ASyn3(al, ws, lo, c.q) == Quiet {
          BadSyntax(al, ws, c.q + 1, hi);
          var a: nat, b: nat :| GoneOver(ws, c.q + 1, hi, a, b) && ClosesNone(ws, a, b);
          SegmentLater(ws, lo, c.q, hi, a, b);
        } else {
          BadOne(al, ws, lo, c.q, hi);
        }
    }
  }

  lemma {:induction false} BadOne(al: Aliases, ws: seq<string>, lo: nat, t: nat, hi: nat)
    requires lo <= t <= hi <= |ws| && ASyn3(al, ws, lo, t) == Bad
    requires lo < t ==> EndsAt(ws, lo, hi, lo, t)
    ensures SomeTooMany(ws, lo, hi)
    decreases t - lo, 0
  {
    var q := LastClose(ws, lo, t);
    LastCloseIs(ws, lo, t);
    BadCommands(al, ws, lo + 1, q);
    var a: nat, b: nat :| GoneOver(ws, lo + 1, q, a, b) && ClosesNone(ws, a, b);
    assert Inside(ws, lo, t, a, b) && Starts(ws, lo, lo);
    assert GoneOver(ws, lo, hi, a, b);
  }

  // The word at k is the first one looked up that has an alias.
  ghost predicate FirstAlias(al: Aliases, ws: seq<string>, k: nat, e: nat) {
    && LookedUp(ws, 1, |ws|, k, e) && k < e <= |ws| && al.has(ws[k])
    && forall j: nat, x: nat :: j < k && LookedUp(ws, 1, |ws|, j, x) ==> j < |ws| && !al.has(ws[j])
  }

  // A pass puts in the alias of the first word looked up that has one, and changes nothing
  // exactly when there is none; it fails when that alias is bad, or for a ) that closes
  // nothing in a segment it goes over.
  lemma PassFinds(al: Aliases, ws: seq<string>)
    requires ws != []
    ensures match OnePass(al, ws)
            case Same => forall k: nat, e: nat :: LookedUp(ws, 1, |ws|, k, e) ==> k < |ws| && !al.has(ws[k])
            case Spliced(next) =>
              exists k: nat, e: nat :: FirstAlias(al, ws, k, e) && Put(al, ws, k, e, next)
            case Failed(why) =>
              if why == Old then exists k: nat, e: nat :: FirstAlias(al, ws, k, e) && al.lex(ws[k..e]).bad
              else why == TooManyRP && SomeTooMany(ws, 1, |ws|)
  {
    PassSyntax(al, ws, 1, |ws|);
    var o := ASyntax(al, ws, 1, |ws|);
    match o
    case Bad => BadSyntax(al, ws, 1, |ws|);
    case Quiet =>
    case Hit(k, e) => assert FirstAlias(al, ws, k, e);
  }

  // The words with the alias in place of the command, or of its first word. The name that
  // an alias begins with itself is marked, so that it is not found again.
  predicate Put(al: Aliases, ws: seq<string>, k: nat, e: nat, next: seq<string>)
    requires k < e <= |ws|
  {
    var lexed := al.lex(ws[k..e]);
    var own := lexed.words != [] && ws[k] != "" && lexed.words[0] == ws[k];
    && !lexed.bad
    && next == ws[..k] + (if own then ["\U{8000}" + ws[k]] + lexed.words[1..] else lexed.words)
               + (if lexed.redid then ws[e..] else ws[k + 1..])
  }

  // In the words that come out of expansion no word that is looked up has an alias.
  lemma NothingLeft(al: Aliases, ws: seq<string>, aleft: nat, k: nat, e: nat)
    requires ws != [] && aleft > 0 && Expand(al, ws, aleft).Success?
    requires LookedUp(Expand(al, ws, aleft).value, 1, |Expand(al, ws, aleft).value|, k, e)
    ensures k < |Expand(al, ws, aleft).value| && !al.has(Expand(al, ws, aleft).value[k])
  {
    var r := Expand(al, ws, aleft).value;
    ExpandSettles(al, ws, r, aleft);
    PassFinds(al, r);
  }
}

// What a pattern means, independently of how it is matched.
module GlobMeaning {
  import opened Shared
  import opened BraceExpansion
  import opened GlobMatch

  datatype Range = Range(lo: char, hi: char)

  // The tokens of a pattern without braces.
  datatype Tok =
    | One(c: char)
    | Any
    | Star
    | Set(ranges: seq<Range>, negated: bool)

  predicate InRanges(c: char, rs: seq<Range>) {
    exists r :: r in rs && r.lo <= c <= r.hi
  }

  predicate Accepts(t: Tok, c: char) {
    match t
    case One(d) => c == d
    case Any => true
    case Star => true
    case Set(rs, neg) => InRanges(c, rs) != neg
  }

  // * stands for any text, the empty one included; every other token for one character.
  ghost predicate Matches(s: string, ts: seq<Tok>)
    decreases |ts|
  {
    if ts == [] then s == ""
    else if ts[0] == Star then exists k :: 0 <= k <= |s| && Matches(s[k..], ts[1..])
    else s != "" && Accepts(ts[0], Trim(s[0])) && Matches(s[1..], ts[1..])
  }

  // The ranges of a class from index i on, and the index behind its closing bracket.
  function ClassRanges(p: string, i: nat): (r: Option<(seq<Range>, nat)>)
    requires 1 <= i <= |p|
    decreases |p| - i
    ensures r.Some? ==> i < r.value.1 <= |p|
  {
    if i == |p| then None
    else if p[i] == ']' then Some(([], i + 1))
    else if p[i] == '-' && p[i - 1] != '[' && (i + 1 == |p| || p[i + 1] != ']') then
      if i + 1 == |p| then None
      else
        match ClassRanges(p, i + 2)
        case None => None
        case Some((rs, n)) => Some(([Range(Trim(p[i - 1]), Trim(p[i + 1]))] + rs, n))
    else
      match ClassRanges(p, i + 1)
      case None => None
      case Some((rs, n)) => Some(([Range(Trim(p[i]), Trim(p[i]))] + rs, n))
  }

  // None when a class is not closed, or when ^ follows *, which asks for the
  // negation of the rest of the pattern.
  function Toks(p: string): Option<seq<Tok>> {
    if p == "" then Some([])
    else if p[0] == '[' then
      match ClassRanges(p, if Negated(p) then 2 else 1)
      case None => None
      case Some((rs, n)) => Cons(Set(rs, Negated(p)), Toks(p[n..]))
    else if p[0] == '*' && Second(p) == '^' then None
    else Cons(if p[0] == '?' then Any else if p[0] == '*' then Star else One(Trim(p[0])), Toks(p[1..]))
  }

  function Cons(t: Tok, ts: Option<seq<Tok>>): Option<seq<Tok>> {
    if ts.None? then None else Some([t] + ts.value)
  }

  // A string that holds no NUL, bare or quoted.
  predicate Clean(s: string) {
    forall i :: 0 <= i < |s| ==> Trim(s[i]) != '\0'
  }

  predicate Plain(p: string) {
    Clean(p) && '{' !in p && Toks(p).Some?
  }

  // ----- classes -----

  lemma {:induction false} ClassAgrees(c: char, p: string, i: nat, matched: bool)
    requires 1 <= i <= |p| && ClassRanges(p, i).Some?
    ensures var (rs, n) := ClassRanges(p, i).value;
            ClassScan(c, p, i, matched) == Closed(n, matched || InRanges(c, rs))
    decreases |p| - i
  {
    var (rs, n) := ClassRanges(p, i).value;
    if p[i] == ']' {
    } else if p[i] == '-' && p[i - 1] != '[' && p[i + 1] != ']' {
      var (rs', n') := ClassRanges(p, i + 2).value;
      RangesCons(c, rs[0], rs');
      ClassAgrees(c, p, i + 2, matched || Trim(p[i - 1]) <= c <= Trim(p[i + 1]));
      if matched {
        ClassAgrees(c, p, i + 2, true);
      }
    } else {
      var (rs', n') := ClassRanges(p, i + 1).value;
      RangesCons(c, rs[0], rs');
      ClassAgrees(c, p, i + 1, matched || c == Trim(p[i]));
    }
  }

  lemma RangesCons(c: char, r: Range, rs: seq<Range>)
    ensures InRanges(c, [r] + rs) <==> r.lo <= c <= r.hi || InRanges(c, rs)
  {
    assert r in [r] + rs && forall x :: x in [r] + rs <==> x == r || x in rs;
  }

  // ----- the star of the code, which wants a non-empty rest -----

  ghost predicate CodeMatches(s: string, ts: seq<Tok>)
    decreases |ts|
  {
    if ts == [] then s == ""
    else if ts == [Star] then true
    else if ts[0] == Star then exists k :: 0 <= k < |s| && CodeMatches(s[k..], ts[1..])
    else s != "" && Accepts(ts[0], Trim(s[0])) && CodeMatches(s[1..], ts[1..])
  }

  lemma {:induction false} TokensOfNonempty(p: string)
    requires Toks(p).Some?
    ensures Toks(p).value == [] <==> p == ""
  {
  }

  lemma ToksTail(p: string)
    requires Plain(p) && p != ""
    ensures p[0] != '[' ==> Plain(p[1..]) && Toks(p) == Some([Toks(p).value[0]] + Toks(p[1..]).value)
    ensures p[0] == '[' ==>
              var r := ClassRanges(p, if Negated(p) then 2 else 1);
              r.Some? && Plain(p[r.value.1..])
              && Toks(p) == Some([Set(r.value.0, Negated(p))] + Toks(p[r.value.1..]).value)
  {
    var k := if p[0] == '[' then ClassRanges(p, if Negated(p) then 2 else 1).value.1 else 1;
    assert forall i :: 0 <= i < |p[k..]| ==> p[k..][i] == p[k + i];
  }

  // The matcher on tokens. A negated class accepts the end of the string, and what follows
  // is then read from behind it.
  function Run(s: string, ts: seq<Tok>): Match
    decreases |ts|, 0, |s|
  {
    if ts == [] then if s == "" then Matched else NoMatch
    else if ts == [Star] then Matched
    else if ts[0] == Star then RunSuffixes(s, ts[1..])
    else if s == "" then if ts[0].Set? && ts[0].negated then Overrun else NoMatch
    else if Accepts(ts[0], Trim(s[0])) then Run(s[1..], ts[1..])
    else NoMatch
  }

  function RunSuffixes(s: string, ts: seq<Tok>): Match
    decreases |ts|, 1, |s|
  {
    if s == "" then NoMatch
    else
      var r := Run(s, ts);
      if r == NoMatch then RunSuffixes(s[1..], ts) else r
  }

  // On a plain pattern the matcher answers as it does on the tokens.
  lemma {:induction false} RunsTokens(s: string, p: string)
    requires Clean(s) && Plain(p)
    ensures PMatch(s, p) == Run(s, Toks(p).value)
    decreases |p|, 0, |s|
  {
    if p != "" {
      ToksTail(p);
      var ts := Toks(p).value;
      if p[0] == '[' {
        var i := if Negated(p) then 2 else 1;
        ClassAgrees(CharAt(s), p, i, false);
        var (rs, n) := ClassRanges(p, i).value;
        assert ts[1..] == Toks(p[n..]).value && ts[0] == Set(rs, Negated(p));
        if s == "" {
          RangesAvoidNul(p, i);
        } else {
          RunsTokens(s[1..], p[n..]);
        }
      } else {
        assert ts[1..] == Toks(p[1..]).value;
        if p[0] == '*' {
          TokensOfNonempty(p[1..]);
          if |p| > 1 { RunsSuffixes(s, p[1..]); }
        } else if s != "" {
          RunsTokens(s[1..], p[1..]);
        }
      }
    }
  }

  lemma {:induction false} RunsSuffixes(s: string, p: string)
    requires Clean(s) && Plain(p) && p != "" && p[0] != '^'
    ensures TrySuffixes(s, p) == RunSuffixes(s, Toks(p).value)
    decreases |p|, 3, |s|
  {
    if s != "" {
      GMatchPlain(s, p);
      RunsTokens(s, p);
      RunsSuffixes(s[1..], p);
    }
  }

  // Unless it overruns, the answer on tokens is CodeMatches.
  lemma {:induction false} RunMeaning(s: string, ts: seq<Tok>)
    ensures var r := Run(s, ts);
            !r.Missing? && (r != Overrun ==> (r == Matched <==> CodeMatches(s, ts)))
    decreases |ts|, 0, |s|
  {
    if ts == [] || ts == [Star] {
    } else if ts[0] == Star {
      SuffixesMeaning(s, ts[1..]);
    } else if s != "" {
      RunMeaning(s[1..], ts[1..]);
    }
  }

  lemma {:induction false} SuffixesMeaning(s: string, ts: seq<Tok>)
    ensures var r := RunSuffixes(s, ts);
            && !r.Missing?
            && (r != Overrun ==> (r == Matched <==> exists k :: 0 <= k < |s| && CodeMatches(s[k..], ts)))
    decreases |ts|, 1, |s|
  {
    if s != "" {
      RunMeaning(s, ts);
      SuffixesMeaning(s[1..], ts);
      assert s[0..] == s;
      assert forall k :: 0 < k < |s| ==> s[k..] == s[1..][k - 1..];
      if Run(s, ts) == NoMatch {
        if k :| 0 <= k < |s| && CodeMatches(s[k..], ts) {
          assert CodeMatches(s[1..][k - 1..], ts);
        }
        if k :| 0 <= k < |s[1..]| && CodeMatches(s[1..][k..], ts) {
          assert CodeMatches(s[k + 1..], ts);
        }
      } else if Run(s, ts) == Matched {
        assert CodeMatches(s[0..], ts);
      }
    }
  }

  // On a plain pattern the matcher decides CodeMatches, or overruns as it does on tokens.
  lemma MatcherMeaning(s: string, p: string)
    requires Clean(s) && Plain(p)
    ensures var ts := Toks(p).value;
            PMatch(s, p) == if Run(s, ts) == Overrun then Overrun
                            else if CodeMatches(s, ts) then Matched else NoMatch
  {
    RunsTokens(s, p);
    RunMeaning(s, Toks(p).value);
  }

  // ----- where the matcher runs past the end of the string -----

  // Some character of a string is accepted.
  ghost predicate Fillable(t: Tok) {
    exists c: char :: Trim(c) != '\0' && Accepts(t, Trim(c))
  }

  predicate NegatedClass(t: Tok) {
    t.Set? && t.negated
  }

  // Token j is a negated class that can be met at the end of a string: what stands in front
  // of it can be filled, and no star directly in front gives it a character.
  ghost predicate OverrunsAt(ts: seq<Tok>, j: nat)
    requires j < |ts|
  {
    NegatedClass(ts[j]) && (j > 0 ==> ts[j - 1] != Star) && forall i :: 0 <= i < j ==> Fillable(ts[i])
  }

  lemma OverrunsAtTail(ts: seq<Tok>, j: nat)
    requires 0 < j < |ts| && (j > 1 || ts[0] != Star)
    ensures OverrunsAt(ts, j) <==> Fillable(ts[0]) && OverrunsAt(ts[1..], j - 1)
  {
    if Fillable(ts[0]) && OverrunsAt(ts[1..], j - 1) {
      forall i | 0 <= i < j ensures Fillable(ts[i]) { assert i > 0 ==> ts[i] == ts[1..][i - 1]; }
    }
    if OverrunsAt(ts, j) {
      forall i | 0 <= i < j - 1 ensures Fillable(ts[1..][i]) { assert ts[1..][i] == ts[i + 1]; }
    }
  }

  lemma StarFills()
    ensures Fillable(Star)
  {
    assert Trim('a') == 'a' && Accepts(Star, Trim('a'));
  }

  lemma {:induction false} OverrunMeets(s: string, ts: seq<Tok>) returns (j: nat)
    requires Clean(s) && Run(s, ts) == Overrun
    ensures j < |ts| && OverrunsAt(ts, j) && (s != "" ==> j > 0)
    decreases |ts|, 0, |s|
  {
    if ts[0] == Star {
      var i := SuffixMeets(s, ts[1..]);
      StarFills();
      j := i + 1;
      OverrunsAtTail(ts, j);
    } else if s == "" {
      j := 0;
    } else {
      var i := OverrunMeets(s[1..], ts[1..]);
      assert Trim(s[0]) != '\0';
      j := i + 1;
      OverrunsAtTail(ts, j);
    }
  }

  lemma {:induction false} SuffixMeets(s: string, ts: seq<Tok>) returns (j: nat)
    requires Clean(s) && RunSuffixes(s, ts) == Overrun
    ensures 0 < j < |ts| && OverrunsAt(ts, j)
    decreases |ts|, 1, |s|
  {
    if Run(s, ts) == Overrun {
      j := OverrunMeets(s, ts);
    } else {
      j := SuffixMeets(s[1..], ts);
    }
  }

  // The tokens in front filled with as few characters as they take.
  lemma {:induction false} OverrunString(ts: seq<Tok>, j: nat) returns (s: string)
    requires j < |ts| && OverrunsAt(ts, j)
    ensures Clean(s) && Run(s, ts) == Overrun && (j > 0 ==> s != "")
    decreases |ts|
  {
    if j == 0 { return ""; }
    if ts[0] == Star {
      StarFills();
      OverrunsAtTail(ts, j);
      s := OverrunString(ts[1..], j - 1);
    } else {
      OverrunsAtTail(ts, j);
      var rest := OverrunString(ts[1..], j - 1);
      assert Fillable(ts[0]);
      var c: char :| Trim(c) != '\0' && Accepts(ts[0], Trim(c));
      s := [c] + rest;
      assert s[1..] == rest;
    }
  }

  ghost predicate CanOverrun(ts: seq<Tok>) {
    exists j :: 0 <= j < |ts| && OverrunsAt(ts, j)
  }

  // Some string is run past exactly when a negated class can be met at its end.
  lemma OverrunsExactly(p: string)
    requires Plain(p)
    ensures (exists s :: Clean(s) && PMatch(s, p) == Overrun) <==> CanOverrun(Toks(p).value)
  {
    var ts := Toks(p).value;
    if s :| Clean(s) && PMatch(s, p) == Overrun {
      RunsTokens(s, p);
      var j := OverrunMeets(s, ts);
    }
    if j :| 0 <= j < |ts| && OverrunsAt(ts, j) {
      var s := OverrunString(ts, j);
      RunsTokens(s, p);
    }
  }

  lemma NegatedClassExample()
    ensures PMatch("", "[^a]") == Overrun
  {
    assert ClassScan('\0', "[^a]", 2, false) == Closed(4, false);
  }

  // ----- classes and NUL, a pattern that is its only alternative -----

  // A class whose pattern is clean has no range that takes in NUL.
  lemma {:induction false} RangesAvoidNul(p: string, i: nat)
    requires 1 <= i <= |p| && Clean(p) && ClassRanges(p, i).Some?
    ensures !InRanges('\0', ClassRanges(p, i).value.0)
    decreases |p| - i
  {
    if p[i] == ']' {
    } else if p[i] == '-' && p[i - 1] != '[' && p[i + 1] != ']' {
      RangesAvoidNul(p, i + 2);
    } else {
      RangesAvoidNul(p, i + 1);
    }
  }

  // A pattern without braces and without a leading ^ is its only alternative.
  lemma GMatchPlain(s: string, p: string)
    requires '{' !in p && First(p) != '^'
    ensures GMatch(s, p) == PMatch(s, p)
  {
    assert AnyMatch(s, [p]) == PMatch(s, p) by { assert [p][1..] == []; }
  }

  // ----- the code's star against the true star -----

  ghost predicate AllStars(ts: seq<Tok>) {
    forall i :: 0 <= i < |ts| ==> ts[i] == Star
  }

  // Two or more stars at the end: the code takes them for ?*.
  predicate DoubleStarTail(ts: seq<Tok>) {
    |ts| >= 2 && ts[|ts| - 1] == Star && ts[|ts| - 2] == Star
  }

  function DropStars(ts: seq<Tok>): (r: seq<Tok>)
    ensures |r| <= |ts| && r == ts[..|r|]
    ensures r == [] || r[|r| - 1] != Star
    ensures forall i :: |r| <= i < |ts| ==> ts[i] == Star
  {
    if ts != [] && ts[|ts| - 1] == Star then DropStars(ts[..|ts| - 1]) else ts
  }

  function Tail(ts: seq<Tok>): seq<Tok> {
    if DoubleStarTail(ts) then DropStars(ts) + [Any, Star] else ts
  }

  // A non-empty pattern that does not consist of stars needs at least one character.
  lemma {:induction false} NothingMatchesOnlyStars(ts: seq<Tok>)
    ensures Matches("", ts) <==> AllStars(ts)
  {
    if ts != [] {
      NothingMatchesOnlyStars(ts[1..]);
      assert ""[0..] == "";
      if AllStars(ts) { assert AllStars(ts[1..]); }
      if Matches("", ts) { assert ts[0] == Star; assert ts == [Star] + ts[1..]; }
    }
  }

  lemma {:induction false} StarsMatchAll(s: string, ts: seq<Tok>)
    requires AllStars(ts) && ts != []
    ensures Matches(s, ts)
    ensures CodeMatches(s, ts) <==> |ts| == 1 || s != ""
  {
    NothingMatchesOnlyStars(ts[1..]);
    assert s[|s|..] == "";
    if |ts| > 1 {
      assert ts != [Star];
      if s != "" {
        StarsMatchAll(s[0..], ts[1..]);
        assert CodeMatches(s[0..], ts[1..]);
      }
    } else {
      assert ts == [Star];
    }
  }

  lemma AnyStar(s: string)
    ensures Matches(s, [Any, Star]) <==> s != ""
  {
    assert [Any, Star][1..] == [Star];
    if s != "" { StarsMatchAll(s[1..], [Star]); }
  }

  lemma {:induction false} TailStep(t: Tok, ts: seq<Tok>)
    requires ts != [] && !AllStars(ts)
    ensures Tail([t] + ts) == [t] + Tail(ts)
  {
    DropStarsStep(t, ts);
    FrontJoins(t, DropStars(ts), [Any, Star]);
  }

  lemma FrontJoins(t: Tok, d: seq<Tok>, x: seq<Tok>)
    ensures [t] + (d + x) == [t] + d + x
  {
  }

  lemma {:induction false} DropStarsStep(t: Tok, ts: seq<Tok>)
    requires !AllStars(ts)
    ensures DropStars([t] + ts) == [t] + DropStars(ts)
  {
    if ts[|ts| - 1] == Star {
      assert ([t] + ts)[..|ts|] == [t] + ts[..|ts| - 1];
      assert !AllStars(ts[..|ts| - 1]);
      DropStarsStep(t, ts[..|ts| - 1]);
    }
  }

  lemma TailOfStars(ts: seq<Tok>)
    requires AllStars(ts) && |ts| >= 2
    ensures Tail(ts) == [Any, Star]
  {
    assert DropStars(ts) == [];
  }

  lemma TailOfSingle(t: Tok, ts: seq<Tok>)
    requires t != Star && AllStars(ts)
    ensures Tail([t] + ts) == [t] + (if |ts| >= 2 then [Any, Star] else ts)
  {
    var all := [t] + ts;
    var d := DropStars(all);
    assert all[0] == t && forall i :: 1 <= i < |all| ==> all[i] == ts[i - 1];
    assert d == [t];
  }

  // The code decides the meaning of the pattern, two or more final stars read as ?*.
  lemma {:induction false} CodeMeaning(s: string, ts: seq<Tok>)
    ensures CodeMatches(s, ts) <==> Matches(s, Tail(ts))
    decreases |ts|
  {
    if ts == [] {
    } else if AllStars(ts) {
      StarsMatchAll(s, ts);
      if |ts| >= 2 {
        TailOfStars(ts);
        AnyStar(s);
      } 
    } else if ts[0] != Star {
      var rest := ts[1..];
      assert ts == [ts[0]] + rest;
      if s != "" { CodeMeaning(s[1..], rest); }
      if AllStars(rest) {
        TailOfSingle(ts[0], rest);
        if |rest| >= 2 { TailOfStars(rest); }
      } else {
        TailStep(ts[0], rest);
      }
      assert Tail(ts)[0] == ts[0] && Tail(ts)[1..] == Tail(rest);
    } else {
      var rest := ts[1..];
      assert ts == [Star] + rest;
      assert !AllStars(rest);
      TailStep(Star, rest);
      assert Tail(ts)[0] == Star && Tail(ts)[1..] == Tail(rest);
      TailNotStars(rest);
      NothingMatchesOnlyStars(Tail(rest));
      forall k | 0 <= k < |s| ensures CodeMatches(s[k..], rest) <==> Matches(s[k..], Tail(rest)) {
        CodeMeaning(s[k..], rest);
      }
      if k :| 0 <= k <= |s| && Matches(s[k..], Tail(rest)) {
        assert s[|s|..] == "";
        assert k < |s|;
      }
    }
  }

  lemma TailNotStars(ts: seq<Tok>)
    requires !AllStars(ts)
    ensures !AllStars(Tail(ts))
  {
    if DoubleStarTail(ts) {
      var t := Tail(ts);
      assert t[|t| - 2] == Any;
    }
  }

  // ----- the results -----

  // The matcher is right, two or more final stars read as ?*, wherever it does not overrun.
  lemma PatternMatches(s: string, p: string)
    requires Clean(s) && Plain(p)
    ensures var ts := Toks(p).value;
            PMatch(s, p) == if Run(s, ts) == Overrun then Overrun
                            else if Matches(s, Tail(ts)) then Matched else NoMatch
  {
    MatcherMeaning(s, p);
    CodeMeaning(s, Toks(p).value);
  }

  // Every token accepts some character.
  ghost predicate Satisfiable(ts: seq<Tok>) {
    forall i :: 0 <= i < |ts| ==> Fillable(ts[i])
  }

  function Width(ts: seq<Tok>): nat {
    if ts == [] then 0 else (if ts[0] == Star then 0 else 1) + Width(ts[1..])
  }

  lemma {:induction false} WidthConcat(a: seq<Tok>, b: seq<Tok>)
    ensures Width(a + b) == Width(a) + Width(b)
  {
    if a == [] {
      assert a + b == b;
    } else {
      assert (a + b)[1..] == a[1..] + b;
      WidthConcat(a[1..], b);
    }
  }

  lemma {:induction false} MatchLength(s: string, ts: seq<Tok>)
    requires Matches(s, ts)
    ensures |s| >= Width(ts)
    decreases |ts|
  {
    if ts != [] {
      if ts[0] == Star {
        var k :| 0 <= k <= |s| && Matches(s[k..], ts[1..]);
        MatchLength(s[k..], ts[1..]);
      } else {
        MatchLength(s[1..], ts[1..]);
      }
    }
  }

  // A string as short as the tokens allow.
  lemma {:induction false} ShortestMatch(a: seq<Tok>, stars: seq<Tok>) returns (s: string)
    requires Satisfiable(a) && AllStars(stars)
    ensures Clean(s) && Matches(s, a + stars) && |s| == Width(a)
  {
    if a == [] {
      assert a + stars == stars;
      NothingMatchesOnlyStars(stars);
      return "";
    }
    assert (a + stars)[0] == a[0] && (a + stars)[1..] == a[1..] + stars;
    var rest := ShortestMatch(a[1..], stars);
    if a[0] == Star {
      assert rest[0..] == rest;
      return rest;
    }
    assert Fillable(a[0]);
    var c: char :| Trim(c) != '\0' && Accepts(a[0], Trim(c));
    s := [c] + rest;
    assert s[1..] == rest;
  }

  lemma {:induction false} UnfillableNeverMatches(s: string, ts: seq<Tok>, i: nat)
    requires Clean(s) && i < |ts| && !Fillable(ts[i])
    ensures !Matches(s, ts)
    decreases |ts|
  {
    if i == 0 {
      StarFills();
    } else if ts[0] == Star {
      forall k | 0 <= k <= |s| ensures !Matches(s[k..], ts[1..]) {
        UnfillableNeverMatches(s[k..], ts[1..], i - 1);
      }
    } else if s != "" {
      UnfillableNeverMatches(s[1..], ts[1..], i - 1);
    }
  }

  // The shortest match in front of two final stars is what the code wants a character more
  // of.
  lemma ShortestFails(ts: seq<Tok>) returns (s: string)
    requires DoubleStarTail(ts) && Satisfiable(ts)
    ensures Clean(s) && Matches(s, ts) && !Matches(s, Tail(ts))
  {
    var a := DropStars(ts);
    s := ShortestMatch(a, ts[|a|..]);
    assert ts == a + ts[|a|..];
    WidthConcat(a, [Any, Star]);
    assert [Any, Star][1..] == [Star] && [Star][1..] == [];
    assert Width(Tail(ts)) == |s| + 1;
    if Matches(s, Tail(ts)) { MatchLength(s, Tail(ts)); }
  }

  lemma UnsatisfiableAgrees(s: string, ts: seq<Tok>)
    requires Clean(s) && (DoubleStarTail(ts) ==> !Satisfiable(ts))
    ensures Matches(s, ts) <==> Matches(s, Tail(ts))
  {
    if DoubleStarTail(ts) {
      var i :| 0 <= i < |ts| && !Fillable(ts[i]);
      StarFills();
      UnfillableNeverMatches(s, ts, i);
      assert Tail(ts)[i] == ts[i];
      UnfillableNeverMatches(s, Tail(ts), i);
    }
  }

  // The answer the pattern means.
  ghost function Meant(s: string, ts: seq<Tok>): Match {
    if Matches(s, ts) then Matched else NoMatch
  }

  // The answer is what the pattern means for every string, unless some string is run past,
  // or the pattern ends in two stars behind tokens that some string satisfies.
  lemma ExactlyWhen(p: string)
    requires Plain(p)
    ensures var ts := Toks(p).value;
            (forall s :: Clean(s) ==> PMatch(s, p) == Meant(s, ts))
            <==> !CanOverrun(ts) && !(DoubleStarTail(ts) && Satisfiable(ts))
  {
    var ts := Toks(p).value;
    OverrunsExactly(p);
    if CanOverrun(ts) {
      var s :| Clean(s) && PMatch(s, p) == Overrun;
      assert PMatch(s, p) != Meant(s, ts);
    } else if DoubleStarTail(ts) && Satisfiable(ts) {
      var s := ShortestFails(ts);
      PatternMatches(s, p);
      assert PMatch(s, p) != Meant(s, ts);
    } else {
      forall s | Clean(s) ensures PMatch(s, p) == Meant(s, ts) {
        PatternMatches(s, p);
        UnsatisfiableAgrees(s, ts);
      }
    }
  }

  // With braces and a leading ^: some alternative matches, or none does.
  ghost predicate SomeMatches(s: string, ws: seq<string>) {
    exists w :: w in ws && Toks(w).Some? && Matches(s, Tail(Toks(w).value))
  }

  ghost predicate SomeOverruns(s: string, ws: seq<string>) {
    exists w :: w in ws && Toks(w).Some? && Run(s, Toks(w).value) == Overrun
  }

  lemma {:induction false} AnyMatchMeaning(s: string, ws: seq<string>)
    requires Clean(s) && forall w :: w in ws ==> Plain(w)
    ensures AnyMatch(s, ws) ==
            if SomeOverruns(s, ws) then Overrun else if SomeMatches(s, ws) then Matched else NoMatch
    decreases |ws|
  {
    if ws != [] {
      assert ws[0] in ws && forall w :: w in ws <==> w == ws[0] || w in ws[1..];
      PatternMatches(s, ws[0]);
      AnyMatchMeaning(s, ws[1..]);
    }
  }

  // A string matches when it matches some alternative, and with a leading ^ when it does
  // not; an alternative that overruns leaves no answer.
  lemma GlobMeaning(s: string, body: string, negated: bool)
    requires Clean(s) && Expand(body).Success?
    requires negated || First(body) != '^'
    requires forall w :: w in Expand(body).value ==> Plain(w)
    ensures GMatch(s, if negated then "^" + body else body)
            == if SomeOverruns(s, Expand(body).value) then Overrun
               else if SomeMatches(s, Expand(body).value) != negated then Matched else NoMatch
  {
    AnyMatchMeaning(s, Expand(body).value);
    assert ("^" + body)[1..] == body;
  }

  // x** does not match x: the last star wants a character.
  lemma DoubleStarExample()
    ensures PMatch("x", "x**") == NoMatch && Matches("x", [One('x'), Star, Star])
    ensures Toks("x**") == Some([One('x'), Star, Star])
  {
    ThreeTokens();
    TwoStarsMatch();
    NothingLeft("x**", [One('x'), Star, Star]);
  }

  lemma ThreeTokens()
    ensures Toks("x**") == Some([One('x'), Star, Star])
  {
    TwoStarTokens();
    TokenText('x', "**");
    assert ['x'] + "**" == "x**" && [One('x')] + [Star, Star] == [One('x'), Star, Star];
  }

  lemma NothingLeft(p: string, ts: seq<Tok>)
    requires Plain(p) && Toks(p) == Some(ts) && ts == [One('x'), Star, Star]
    ensures PMatch("x", p) == NoMatch
  {
    RunsTokens("x", p);
    assert "x"[1..] == "" && ts[1..] == [Star, Star];
    assert Run("", [Star, Star]) == NoMatch;
  }

  lemma TwoStarTokens()
    ensures Toks("**") == Some([Star, Star])
  {
    assert "**"[1..] == "*" && "*"[1..] == "";
    assert Toks("") == Some([]) && [Star] + [] == [Star] && [Star] + [Star] == [Star, Star];
    assert Toks("*") == Some([Star]);
  }

  lemma TwoStarsMatch()
    ensures Matches("x", [One('x'), Star, Star])
  {
    assert [One('x'), Star, Star][1..] == [Star, Star] && "x"[1..] == "";
    NothingMatchesOnlyStars([Star, Star]);
  }

  // ----- the text of a class -----

  // A character, or two with a dash between them.
  datatype Item = Single(c: char) | Through(lo: char, hi: char)

  function ItemText(x: Item): string {
    match x
    case Single(c) => [c]
    case Through(lo, hi) => [lo, '-', hi]
  }

  function ItemsText(xs: seq<Item>): string {
    if xs == [] then "" else ItemText(xs[0]) + ItemsText(xs[1..])
  }

  predicate InClass(c: char) {
    c != '[' && c != ']' && c != '-' && c != '^' && Trim(c) == c
  }

  predicate ItemFormed(x: Item) {
    match x
    case Single(c) => InClass(c)
    case Through(lo, hi) => InClass(lo) && InClass(hi)
  }

  // The character itself, and with a dash everything between the two as well.
  predicate ItemTakes(x: Item, c: char) {
    match x
    case Single(d) => c == d
    case Through(lo, hi) => c == lo || lo <= c <= hi
  }

  predicate Takes(xs: seq<Item>, c: char) {
    exists k :: 0 <= k < |xs| && ItemTakes(xs[k], c)
  }

  // The class from index i on stands for what its items take, and ends at its bracket.
  ghost predicate Stands(p: string, i: nat, xs: seq<Item>, end: nat) {
    && 1 <= i <= |p| && ClassRanges(p, i).Some? && ClassRanges(p, i).value.1 == end
    && forall c :: InRanges(c, ClassRanges(p, i).value.0) <==> Takes(xs, c)
  }

  lemma {:induction false} ItemsStand(p: string, i: nat, xs: seq<Item>, rest: string)
    requires 1 <= i <= |p| && p[i..] == ItemsText(xs) + "]" + rest && forall k :: 0 <= k < |xs| ==> ItemFormed(xs[k])
    ensures Stands(p, i, xs, |p| - |rest|)
    decreases |xs|
  {
    if xs == [] {
      assert p[i..][0] == p[i] == ']';
      assert |p[i..]| == 1 + |rest|;
    } else {
      var n := |ItemText(xs[0])|;
      ItemsCut(p, i, xs, rest);
      ItemsStand(p, i + n, xs[1..], rest);
      ItemStands(p, i, xs[0], xs[1..], |p| - |rest|);
      assert [xs[0]] + xs[1..] == xs;
    }
  }

  lemma ItemsCut(p: string, i: nat, xs: seq<Item>, rest: string)
    requires xs != [] && i <= |p| && p[i..] == ItemsText(xs) + "]" + rest
    ensures var n := |ItemText(xs[0])|;
            i + n <= |p| && p[i..i + n] == ItemText(xs[0]) && p[i + n..] == ItemsText(xs[1..]) + "]" + rest
  {
    var t, u := ItemText(xs[0]), ItemsText(xs[1..]) + "]" + rest;
    assert p[i..] == t + u;
    assert p[i..i + |t|] == p[i..][..|t|] && p[i + |t|..] == p[i..][|t|..];
  }

  lemma ItemStands(p: string, i: nat, x: Item, more: seq<Item>, end: nat)
    requires 1 <= i && i + |ItemText(x)| <= |p| && p[i..i + |ItemText(x)|] == ItemText(x) && ItemFormed(x)
    requires Stands(p, i + |ItemText(x)|, more, end)
    ensures Stands(p, i, [x] + more, end)
  {
    var rs := ClassRanges(p, i + |ItemText(x)|).value.0;
    assert forall k :: 0 <= k < |ItemText(x)| ==> p[i + k] == p[i..i + |ItemText(x)|][k] == ItemText(x)[k];
    match x {
      case Single(d) => SingleRead(p, i, d, rs, end);
      case Through(lo, hi) => ThroughRead(p, i, lo, hi, rs, end);
    }
    var all := ClassRanges(p, i).value.0;
    forall c ensures InRanges(c, all) <==> Takes([x] + more, c) {
      TakesCons(x, more, c);
      assert InRanges(c, rs) <==> Takes(more, c);
    }
  }

  lemma SingleRead(p: string, i: nat, d: char, rs: seq<Range>, end: nat)
    requires 1 <= i < |p| && p[i] == d && InClass(d) && ClassRanges(p, i + 1) == Some((rs, end))
    ensures ClassRanges(p, i) == Some(([Range(d, d)] + rs, end))
    ensures forall c :: InRanges(c, [Range(d, d)] + rs) <==> c == d || InRanges(c, rs)
  {
    forall c ensures InRanges(c, [Range(d, d)] + rs) <==> c == d || InRanges(c, rs) { RangesCons(c, Range(d, d), rs); }
  }

  lemma ThroughRead(p: string, i: nat, lo: char, hi: char, rs: seq<Range>, end: nat)
    requires 1 <= i && i + 3 <= |p| && p[i] == lo && p[i + 1] == '-' && p[i + 2] == hi && InClass(lo) && InClass(hi)
    requires ClassRanges(p, i + 3) == Some((rs, end))
    ensures ClassRanges(p, i) == Some(([Range(lo, lo)] + ([Range(lo, hi)] + rs), end))
    ensures forall c :: InRanges(c, [Range(lo, lo)] + ([Range(lo, hi)] + rs))
                        <==> c == lo || lo <= c <= hi || InRanges(c, rs)
  {
    assert ClassRanges(p, i + 1) == Some(([Range(lo, hi)] + rs, end));
    forall c
      ensures InRanges(c, [Range(lo, lo)] + ([Range(lo, hi)] + rs)) <==> c == lo || lo <= c <= hi || InRanges(c, rs)
    {
      RangesCons(c, Range(lo, lo), [Range(lo, hi)] + rs);
      RangesCons(c, Range(lo, hi), rs);
    }
  }

  lemma TakesCons(x: Item, more: seq<Item>, c: char)
    ensures Takes([x] + more, c) <==> ItemTakes(x, c) || Takes(more, c)
  {
    var xs := [x] + more;
    assert xs[0] == x && forall k :: 0 <= k < |more| ==> xs[k + 1] == more[k];
    assert forall k :: 0 < k < |xs| ==> xs[k] == more[k - 1];
  }

  // A pattern begins with a class, a ?, a * or a character: what the tokens are.
  lemma ClassText(negated: bool, xs: seq<Item>, rest: string)
    requires xs != [] && forall k :: 0 <= k < |xs| ==> ItemFormed(xs[k])
    ensures var p := (if negated then "[^" else "[") + ItemsText(xs) + "]" + rest;
            if Toks(rest).None? then Toks(p).None?
            else
              && Toks(p).Some? && |Toks(p).value| == |Toks(rest).value| + 1 && Toks(p).value[1..] == Toks(rest).value
              && Toks(p).value[0].Set?
              && forall c :: Accepts(Toks(p).value[0], c) <==> Takes(xs, c) != negated
  {
    var p := ClassFront(negated, xs, rest);
    ItemsStand(p, if negated then 2 else 1, xs, rest);
    ClassToken(p, negated, xs, rest, |p| - |rest|);
  }

  lemma ClassFront(negated: bool, xs: seq<Item>, rest: string) returns (p: string)
    requires xs != [] && forall k :: 0 <= k < |xs| ==> ItemFormed(xs[k])
    ensures p == (if negated then "[^" else "[") + ItemsText(xs) + "]" + rest
    ensures |p| > 2 && p[0] == '[' && Negated(p) == negated && |rest| <= |p| && p[|p| - |rest|..] == rest
    ensures p[if negated then 2 else 1..] == ItemsText(xs) + "]" + rest
  {
    var front, t := if negated then "[^" else "[", ItemsText(xs);
    p := front + t + "]" + rest;
    assert t == ItemText(xs[0]) + ItemsText(xs[1..]) && t[0] == ItemText(xs[0])[0] != '^';
    Behind(front, t, rest);
    assert p[0] == front[0] && p[1] == if negated then front[1] else t[0];
  }

  lemma Behind(front: string, t: string, rest: string)
    ensures var p := front + t + "]" + rest;
            p[|front|..] == t + "]" + rest && p[|p| - |rest|..] == rest
  {
  }

  lemma ClassToken(p: string, negated: bool, xs: seq<Item>, rest: string, n: nat)
    requires |p| > 2 && p[0] == '[' && Negated(p) == negated && Stands(p, if negated then 2 else 1, xs, n)
    requires n <= |p| && p[n..] == rest
    ensures if Toks(rest).None? then Toks(p).None?
            else
              && Toks(p).Some? && |Toks(p).value| == |Toks(rest).value| + 1 && Toks(p).value[1..] == Toks(rest).value
              && Toks(p).value[0].Set?
              && forall c :: Accepts(Toks(p).value[0], c) <==> Takes(xs, c) != negated
  {
    var rs := ClassRanges(p, if negated then 2 else 1).value.0;
    if Toks(rest).Some? {
      assert Toks(p) == Some([Set(rs, negated)] + Toks(rest).value);
      assert ([Set(rs, negated)] + Toks(rest).value)[1..] == Toks(rest).value;
    }
  }

  lemma TokenText(c: char, rest: string)
    requires Toks(rest).Some?
    ensures Toks("?" + rest) == Some([Any] + Toks(rest).value)
    ensures rest == "" || rest[0] != '^' ==> Toks("*" + rest) == Some([Star] + Toks(rest).value)
    ensures c != '[' && c != '?' && c != '*' && Trim(c) == c ==> Toks([c] + rest) == Some([One(c)] + Toks(rest).value)
  {
    assert ("?" + rest)[1..] == rest && ("*" + rest)[1..] == rest && ([c] + rest)[1..] == rest;
  }
}

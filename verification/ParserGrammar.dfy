// The grammar of commands, on words: the parser accepts exactly what it derives, and
// builds the tree derived (bin/csh/parse.c: syntax, syn0 ... syn3).
module ParserGrammar {
  import opened Shared
  import opened Keywords
  import opened Parser
  import C = CommandWords
  import R = ParserRound

  // ----- what operators and keywords are -----

  // The word at k is the operator of a level, outside parentheses: & but not &&, nor the &
  // of >& or |&; ; or a newline; ||; &&; |.
  predicate OpAt(level: nat, seg: seq<string>, k: nat) {
    && k < |seg| && Depth(seg, k) == 0
    && var w := seg[k];
       match level
       case 0 =>
         && C.Begins(w, '&') && !(|w| > 1 && w[1] == '&')
         && !(w == "&" && k > 0 && (C.Begins(seg[k - 1], '>')
                                    || (C.Begins(seg[k - 1], '|') && !(|seg[k - 1]| > 1 && seg[k - 1][1] == '|'))))
       case 1 => C.Begins(w, ';') || C.Begins(w, '\n')
       case 2 => |w| > 1 && w[..2] == "||"
       case 3 => |w| > 1 && w[..2] == "&&"
       case _ => C.Begins(w, '|')
  }

  ghost predicate FirstOp(level: nat, seg: seq<string>, k: nat) {
    OpAt(level, seg, k) && forall j: nat :: j < k ==> !OpAt(level, seg, j)
  }

  ghost predicate NoOp(level: nat, seg: seq<string>) {
    forall j: nat :: j < |seg| ==> !OpAt(level, seg, j)
  }

  // How many parentheses are open: those that begin with ( less those that begin with ).
  lemma {:induction false} DepthCounts(seg: seq<string>, k: nat)
    requires k <= |seg|
    ensures Depth(seg, k) ==
            |set j | 0 <= j < k && C.Begins(seg[j], '(')| - |set j | 0 <= j < k && C.Begins(seg[j], ')')|
  {
    if k > 0 {
      DepthCounts(seg, k - 1);
      OneMore(seg, k, '(');
      OneMore(seg, k, ')');
    }
  }

  lemma OneMore(seg: seq<string>, k: nat, c: char)
    requires 0 < k <= |seg|
    ensures |set j | 0 <= j < k && C.Begins(seg[j], c)|
         == |set j | 0 <= j < k - 1 && C.Begins(seg[j], c)| + if C.Begins(seg[k - 1], c) then 1 else 0
  {
    var a, b := set j | 0 <= j < k && C.Begins(seg[j], c), set j | 0 <= j < k - 1 && C.Begins(seg[j], c);
    if C.Begins(seg[k - 1], c) { assert a == b + {k - 1}; } else { assert a == b; }
  }

  // The words that take parentheses as arguments, behind any else.
  ghost predicate TakesParens(seg: seq<string>) {
    exists n :: 0 <= n < |seg| && (forall j :: 0 <= j < n ==> seg[j] == "else") && IsKey(seg[n])
  }

  predicate IsKey(w: string) {
    w == "exit" || w == "foreach" || w == "if" || w == "@" || w == "set" || w == "switch" || w == "while"
  }

  lemma KeysAre(w: string)
    ensures IsKey(w) <==>
            Keyword(w).Some? && Keyword(w).value in {T_EXIT, T_FOREACH, T_IF, T_LET, T_SET, T_SWITCH, T_WHILE}
    ensures w == "else" <==> Keyword(w) == Some(T_ELSE)
  {
  }

  lemma {:induction false} SpecialIs(seg: seq<string>)
    ensures IsSpecial(seg) <==> TakesParens(seg)
  {
    if seg != [] {
      KeysAre(seg[0]);
      if seg[0] == "else" {
        SpecialIs(seg[1..]);
        if n :| 0 <= n < |seg[1..]| && (forall j :: 0 <= j < n ==> seg[1..][j] == "else") && IsKey(seg[1..][n]) {
          assert forall j :: 0 <= j < n + 1 ==> j == 0 || seg[j] == seg[1..][j - 1];
          assert IsKey(seg[n + 1]);
        }
        if n :| 0 <= n < |seg| && (forall j :: 0 <= j < n ==> seg[j] == "else") && IsKey(seg[n]) {
          assert n > 0 && IsKey(seg[1..][n - 1]);
          assert forall j :: 0 <= j < n - 1 ==> seg[1..][j] == seg[j + 1];
        }
      } else if IsKey(seg[0]) {
        assert TakesParens(seg);
      }
    }
  }

  // ----- the grammar -----

  // & puts a command in the background; a list, && or || is put in parentheses first.
  predicate InBackground(u: Cmd, t: Cmd) {
    match u
    case Command(av, rd, _, nofork) => t == Command(av, rd, true, nofork)
    case Paren(sub, rd, _, nofork) => t == Paren(sub, rd, true, nofork)
    case Pipe(l, r, stderr, _) => t == Pipe(l, r, stderr, true)
    case _ => t == Paren(u, NoRedirs, true, false)
  }

  predicate IsSeparator(w: string) {
    C.Begins(w, ';') || C.Begins(w, '&') || C.Begins(w, '\n')
  }

  // The tree t is derived from the words at a level, with the first character of the word
  // behind them: the weakest operator splits first, and at its first place.
  ghost predicate Derives(t: Cmd, level: nat, seg: seq<string>, stop: char, flags: Flags)
    decreases |seg|, if level < 5 then 8 - level else 3, 1
  {
    if level >= 5 then Simple(t, seg, stop, flags)
    else if NoOp(level, seg) then Derives(t, level + 1, seg, stop, flags)
    else exists k: nat :: k < |seg| && FirstOp(level, seg, k) && Split(t, level, seg, k, stop, flags)
  }

  ghost predicate Split(t: Cmd, level: nat, seg: seq<string>, k: nat, stop: char, flags: Flags)
    requires level < 5 && k < |seg|
    decreases |seg|, 8 - level, 0
  {
    var l, r := seg[..k], seg[k + 1..];
    if level == 0 then
      t.List? && t.car.Some? && Behind(t.cdr, r, stop, flags) && BackgroundOf(t.car.value, l, flags)
    else if level == 1 then
      && t.List? && t.cdr.Some?
      && if t.car.None? then Behind(None, r, stop, flags) && Derives(t.cdr.value, 2, l, First(seg[k]), flags)
         else Behind(t.cdr, r, stop, flags) && Derives(t.car.value, 2, l, First(seg[k]), flags)
    else if level == 2 then t.Or? && Derives(t.l, 3, l, '|', flags) && Derives(t.r, 2, r, stop, flags)
    else if level == 3 then t.And? && Derives(t.l, 4, l, '&', flags) && Derives(t.r, 3, r, stop, flags)
    else
      && t.Pipe? && !t.amp && (t.stderr <==> r != [] && C.Begins(r[0], '&'))
      && Derives(t.l, 5, l, '|', flags.(pout := true, perr := flags.perr || t.stderr))
      && Derives(t.r, 4, if t.stderr then r[1..] else r, stop, flags.(pin := true))
  }

  ghost predicate BackgroundOf(t: Cmd, seg: seq<string>, flags: Flags)
    decreases |seg|, 9
  {
    exists u :: InBackground(u, t) && Derives(u, 1, seg, '&', flags)
  }

  // Separators, and a command behind them if there is one.
  ghost predicate Behind(t: Option<Cmd>, seg: seq<string>, stop: char, flags: Flags)
    decreases |seg|, 9
  {
    if t.None? then Separators(seg, |seg|)
    else
      exists n: nat ::
        n < |seg| && Separators(seg, n) && !IsSeparator(seg[n]) && Derives(t.value, 0, seg[n..], stop, flags)
  }

  predicate Separators(seg: seq<string>, n: nat) {
    n <= |seg| && forall j :: 0 <= j < n ==> IsSeparator(seg[j])
  }

  // Words with redirections, in any order; or one group of parentheses and redirections.
  ghost predicate Simple(t: Cmd, seg: seq<string>, stop: char, flags: Flags)
    decreases |seg|, 2
  {
    exists items ::
      C.AllFormed(items) && C.Flat(items) == seg && C.Permitted(items, TakesParens(seg), flags)
      && SimpleTree(t, items, seg, stop)
  }

  ghost predicate SimpleTree(t: Cmd, items: seq<C.Item>, seg: seq<string>, stop: char)
    decreases |seg|, 1
  {
    var groups, words := C.Groups(items), C.Words(items, TakesParens(seg));
    if groups != [] && !TakesParens(seg) then
      && t.Paren? && words == [] && t.redirs == C.Asked(items) && !t.amp && (t.nofork <==> stop == ')')
      && |groups[0].inner| < |seg|
      && Derives(t.sub, 0, groups[0].inner, ')', Flags(true, false, false, false))
    else words != [] && t == Command(words, C.Asked(items), false, stop == ')')
  }

  // ----- the parser -----

  lemma OpIsHit(level: nat, seg: seq<string>, k: nat)
    requires level < 5
    ensures OpAt(level, seg, k) <==> TopHit(R.KindOf(level), seg, k)
  {
    if k < |seg| && |seg[k]| > 1 {
      assert seg[k][..2] == [seg[k][0], seg[k][1]];
      assert "||" == ['|', '|'] && "&&" == ['&', '&'];
    }
  }

  lemma FirstIs(level: nat, seg: seq<string>)
    requires level < 5
    ensures var r := FindTop(R.KindOf(level), seg, 0);
            if r.None? then NoOp(level, seg) else r.value < |seg| && FirstOp(level, seg, r.value) && !NoOp(level, seg)
  {
    forall k: nat | k < |seg| ensures OpAt(level, seg, k) <==> TopHit(R.KindOf(level), seg, k) {
      OpIsHit(level, seg, k);
    }
  }

  lemma OnlyFirst(level: nat, seg: seq<string>, i: nat, k: nat)
    requires FirstOp(level, seg, i) && FirstOp(level, seg, k)
    ensures i == k
  {
  }

  // The parser gives the tree without an error.
  ghost predicate Gives(t: Cmd, level: nat, seg: seq<string>, stop: char, flags: Flags)
    requires Balanced(seg)
  {
    R.SynAt(level, seg, stop, flags) == Parsed(t, None)
  }

  lemma InBackgroundIs(u: Cmd, t: Cmd)
    ensures InBackground(u, t) <==> t == Background(u)
  {
  }

  lemma SeparatorsOver(seg: seq<string>, m: nat)
    requires seg != [] && IsSeparator(seg[0]) && Separators(seg[1..], m)
    ensures Separators(seg, m + 1)
  {
    assert forall j :: 0 < j < m + 1 ==> seg[j] == seg[1..][j - 1];
  }

  lemma {:induction false} SkipSepsIs(seg: seq<string>) returns (n: nat)
    ensures n <= |seg| && SkipSeps(seg) == seg[n..] && Separators(seg, n) && (n < |seg| ==> !IsSeparator(seg[n]))
  {
    if seg != [] && IsSep(seg[0]) {
      var rest := seg[1..];
      var m := SkipSepsIs(rest);
      n := m + 1;
      SeparatorsOver(seg, m);
      assert rest[m..] == seg[n..];
    } else {
      n := 0;
    }
  }

  // ----- one operator of the parser -----

  lemma CutParts(level: nat, seg: seq<string>, k: nat)
    requires level < 5 && Balanced(seg) && OpAt(level, seg, k)
    ensures k < |seg| && Balanced(seg[..k]) && Balanced(seg[k..]) && Balanced(seg[k + 1..])
  {
    OpIsHit(level, seg, k);
    Cut(seg, k);
    HitDepth(R.KindOf(level), seg, k);
    Cut(seg, k + 1);
  }

  lemma FirstCut(level: nat, seg: seq<string>, k: nat)
    requires level < 5 && Balanced(seg) && FindTop(R.KindOf(level), seg, 0) == Some(k)
    ensures k < |seg| && Balanced(seg[..k]) && Balanced(seg[k..]) && Balanced(seg[k + 1..])
  {
    OpIsHit(level, seg, k);
    CutParts(level, seg, k);
  }

  lemma EitherStep(level: nat, seg: seq<string>, k: nat, stop: char, flags: Flags)
    requires (level == 2 || level == 3) && Balanced(seg) && FindTop(R.KindOf(level), seg, 0) == Some(k)
    ensures k < |seg| && Balanced(seg[..k]) && Balanced(seg[k + 1..])
    ensures var a := R.SynAt(level + 1, seg[..k], if level == 2 then '|' else '&', flags);
            var b := R.SynAt(level, seg[k + 1..], stop, flags);
            R.SynAt(level, seg, stop, flags) ==
            Parsed(if level == 2 then Or(a.cmd, b.cmd) else And(a.cmd, b.cmd), Earliest(a.err, b.err))
  {
    FirstCut(level, seg, k);
    if level == 2 { OrStep(seg, k, stop, flags); } else { AndStep(seg, k, stop, flags); }
  }

  lemma OrStep(seg: seq<string>, k: nat, stop: char, flags: Flags)
    requires Balanced(seg) && FindTop(OrOr, seg, 0) == Some(k)
    requires k < |seg| && Balanced(seg[..k]) && Balanced(seg[k + 1..])
    ensures var a, b := R.SynAt(3, seg[..k], '|', flags), R.SynAt(2, seg[k + 1..], stop, flags);
            R.SynAt(2, seg, stop, flags) == Parsed(Or(a.cmd, b.cmd), Earliest(a.err, b.err))
  {
  }

  lemma AndStep(seg: seq<string>, k: nat, stop: char, flags: Flags)
    requires Balanced(seg) && FindTop(AndAnd, seg, 0) == Some(k)
    requires k < |seg| && Balanced(seg[..k]) && Balanced(seg[k + 1..])
    ensures var a, b := R.SynAt(4, seg[..k], '&', flags), R.SynAt(3, seg[k + 1..], stop, flags);
            R.SynAt(3, seg, stop, flags) == Parsed(And(a.cmd, b.cmd), Earliest(a.err, b.err))
  {
  }

  lemma PipeStep(seg: seq<string>, k: nat, stop: char, flags: Flags)
    requires Balanced(seg) && FindTop(Bar, seg, 0) == Some(k)
    ensures k < |seg| && Balanced(seg[..k]) && BehindBar(seg, k) <= |seg| && Balanced(seg[BehindBar(seg, k)..])
    ensures var err := BehindBar(seg, k) == k + 2;
            var a := Syn3(seg[..k], '|', flags.(pout := true, perr := flags.perr || err));
            var b := Syn2(seg[BehindBar(seg, k)..], stop, flags.(pin := true));
            Syn2(seg, stop, flags) == Parsed(Pipe(a.cmd, b.cmd, err, false), Earliest(a.err, b.err))
  {
    BarCut(seg, k);
  }

  lemma SemiStep(seg: seq<string>, k: nat, stop: char, flags: Flags)
    requires Balanced(seg) && FindTop(Semi, seg, 0) == Some(k)
    ensures k < |seg| && Balanced(seg[..k]) && Balanced(seg[k + 1..])
    ensures var a := R.SynAt(2, seg[..k], First(seg[k]), flags);
            var b := Syntax(seg[k + 1..], stop, flags);
            R.SynAt(1, seg, stop, flags) ==
            Parsed(if b.cmd.None? then List(None, Some(a.cmd)) else List(Some(a.cmd), b.cmd), Earliest(a.err, b.err))
  {
    FirstCut(1, seg, k);
    SemiParts(seg, k, stop, flags);
  }

  lemma SemiParts(seg: seq<string>, k: nat, stop: char, flags: Flags)
    requires Balanced(seg) && FindTop(Semi, seg, 0) == Some(k)
    requires k < |seg| && Balanced(seg[..k]) && Balanced(seg[k + 1..])
    ensures var a, b := Syn1a(seg[..k], First(seg[k]), flags), Syntax(seg[k + 1..], stop, flags);
            Syn1(seg, stop, flags) ==
            Parsed(if b.cmd.None? then List(None, Some(a.cmd)) else List(Some(a.cmd), b.cmd), Earliest(a.err, b.err))
  {
  }

  lemma AmpStep(seg: seq<string>, k: nat, stop: char, flags: Flags)
    requires Balanced(seg) && FindTop(Amp, seg, 0) == Some(k)
    ensures k < |seg| && Balanced(seg[..k]) && Balanced(seg[k + 1..])
    ensures var a := R.SynAt(1, seg[..k], '&', flags);
            var b := Syntax(seg[k + 1..], stop, flags);
            R.SynAt(0, seg, stop, flags) ==
            Parsed(List(Some(Background(a.cmd)), b.cmd), Earliest(a.err, b.err))
  {
    FirstCut(0, seg, k);
    assert seg[k..][1..] == seg[k + 1..];
    SyntaxSkips(seg[k..], stop, flags);
  }

  lemma SyntaxSkips(seg: seq<string>, stop: char, flags: Flags)
    requires NonNegative(seg) && seg != [] && IsSep(seg[0]) && NonNegative(seg[1..])
    ensures Syntax(seg, stop, flags) == Syntax(seg[1..], stop, flags)
  {
  }

  lemma NoneStep(level: nat, seg: seq<string>, stop: char, flags: Flags)
    requires level < 5 && Balanced(seg) && FindTop(R.KindOf(level), seg, 0) == None
    ensures R.SynAt(level, seg, stop, flags) == R.SynAt(level + 1, seg, stop, flags)
  {
  }

  // ----- the parser gives the tree derived, and no other -----

  lemma {:induction false} Grammar(t: Cmd, level: nat, seg: seq<string>, stop: char, flags: Flags)
    requires level <= 5 && Balanced(seg)
    ensures Gives(t, level, seg, stop, flags) <==> Derives(t, level, seg, stop, flags)
    decreases |seg|, 6 - level, 2
  {
    if level == 5 {
      SimpleGrammar(t, seg, stop, flags);
    } else {
      FirstIs(level, seg);
      match FindTop(R.KindOf(level), seg, 0) {
        case None =>
          NoneStep(level, seg, stop, flags);
          Grammar(t, level + 1, seg, stop, flags);
        case Some(k) =>
          SplitGrammar(t, level, seg, k, stop, flags);
          forall j: nat | j < |seg| && FirstOp(level, seg, j) ensures j == k { OnlyFirst(level, seg, j, k); }
      }
    }
  }

  lemma {:induction false} SplitGrammar(t: Cmd, level: nat, seg: seq<string>, k: nat, stop: char, flags: Flags)
    requires level < 5 && Balanced(seg) && FindTop(R.KindOf(level), seg, 0) == Some(k) && k < |seg|
    ensures Gives(t, level, seg, stop, flags) <==> Split(t, level, seg, k, stop, flags)
    decreases |seg|, 6 - level, 1
  {
    if level == 0 {
      AmpGrammar(t, seg, k, stop, flags);
    } else if level == 1 {
      SemiGrammar(t, seg, k, stop, flags);
    } else if level == 4 {
      PipeGrammar(t, seg, k, stop, flags);
    } else {
      EitherGrammar(t, level, seg, k, stop, flags);
    }
  }

  lemma {:induction false} EitherGrammar(t: Cmd, level: nat, seg: seq<string>, k: nat, stop: char, flags: Flags)
    requires (level == 2 || level == 3) && Balanced(seg) && FindTop(R.KindOf(level), seg, 0) == Some(k) && k < |seg|
    ensures Gives(t, level, seg, stop, flags) <==> Split(t, level, seg, k, stop, flags)
    decreases |seg|, 6 - level, 0
  {
    EitherStep(level, seg, k, stop, flags);
    if (level == 2 && t.Or?) || (level == 3 && t.And?) {
      Grammar(t.l, level + 1, seg[..k], if level == 2 then '|' else '&', flags);
      Grammar(t.r, level, seg[k + 1..], stop, flags);
    }
  }

  lemma {:induction false} PipeGrammar(t: Cmd, seg: seq<string>, k: nat, stop: char, flags: Flags)
    requires Balanced(seg) && FindTop(Bar, seg, 0) == Some(k) && k < |seg|
    ensures Gives(t, 4, seg, stop, flags) <==> Split(t, 4, seg, k, stop, flags)
    decreases |seg|, 2, 0
  {
    PipeStep(seg, k, stop, flags);
    var err, r := BehindBar(seg, k) == k + 2, seg[k + 1..];
    assert err <==> r != [] && C.Begins(r[0], '&');
    assert err ==> r[1..] == seg[k + 2..];
    if t.Pipe? && t.stderr == err {
      Grammar(t.l, 5, seg[..k], '|', flags.(pout := true, perr := flags.perr || err));
      Grammar(t.r, 4, seg[BehindBar(seg, k)..], stop, flags.(pin := true));
    }
  }

  lemma {:induction false} SemiGrammar(t: Cmd, seg: seq<string>, k: nat, stop: char, flags: Flags)
    requires Balanced(seg) && FindTop(Semi, seg, 0) == Some(k) && k < |seg|
    ensures Gives(t, 1, seg, stop, flags) <==> Split(t, 1, seg, k, stop, flags)
    decreases |seg|, 5, 0
  {
    SemiStep(seg, k, stop, flags);
    if t.List? && t.cdr.Some? {
      if t.car.None? {
        BehindGrammar(None, seg[k + 1..], stop, flags);
        Grammar(t.cdr.value, 2, seg[..k], First(seg[k]), flags);
      } else {
        BehindGrammar(t.cdr, seg[k + 1..], stop, flags);
        Grammar(t.car.value, 2, seg[..k], First(seg[k]), flags);
      }
    }
  }

  lemma {:induction false} AmpGrammar(t: Cmd, seg: seq<string>, k: nat, stop: char, flags: Flags)
    requires Balanced(seg) && FindTop(Amp, seg, 0) == Some(k) && k < |seg|
    ensures Gives(t, 0, seg, stop, flags) <==> Split(t, 0, seg, k, stop, flags)
    decreases |seg|, 6, 0
  {
    AmpStep(seg, k, stop, flags);
    if t.List? && t.car.Some? {
      BehindGrammar(t.cdr, seg[k + 1..], stop, flags);
      BackgroundGrammar(t.car.value, seg[..k], flags);
    }
  }

  lemma {:induction false} BackgroundGrammar(t: Cmd, seg: seq<string>, flags: Flags)
    requires Balanced(seg)
    ensures (var a := R.SynAt(1, seg, '&', flags); a.err.None? && Background(a.cmd) == t)
            <==> BackgroundOf(t, seg, flags)
    decreases |seg|, 8, 0
  {
    var a := R.SynAt(1, seg, '&', flags);
    Grammar(a.cmd, 1, seg, '&', flags);
    InBackgroundIs(a.cmd, t);
    if u :| InBackground(u, t) && Derives(u, 1, seg, '&', flags) {
      Grammar(u, 1, seg, '&', flags);
    }
  }

  lemma OneStart(seg: seq<string>, m: nat, n: nat)
    requires m < |seg| && n < |seg| && Separators(seg, m) && Separators(seg, n)
    requires !IsSeparator(seg[m]) && !IsSeparator(seg[n])
    ensures m == n
  {
  }

  // Separators, and the command behind them.
  lemma {:induction false} BehindGrammar(t: Option<Cmd>, seg: seq<string>, stop: char, flags: Flags)
    requires Balanced(seg)
    ensures Syntax(seg, stop, flags) == Maybe(t, None) <==> Behind(t, seg, stop, flags)
    decreases |seg|, 8, 0
  {
    var n := SkipSepsIs(seg);
    SkipSepsCut(seg);
    if n < |seg| {
      assert !Separators(seg, |seg|);
      if t.Some? { Grammar(t.value, 0, seg[n..], stop, flags); }
      forall m: nat | m < |seg| && Separators(seg, m) && !IsSeparator(seg[m]) ensures m == n { OneStart(seg, m, n); }
    }
  }

  // ----- simple commands -----

  lemma {:induction false} SimpleGrammar(t: Cmd, seg: seq<string>, stop: char, flags: Flags)
    requires Balanced(seg)
    ensures Gives(t, 5, seg, stop, flags) <==> Simple(t, seg, stop, flags)
    decreases |seg|, 1, 1
  {
    SpecialIs(seg);
    var specp := IsSpecial(seg);
    if Gives(t, 5, seg, stop, flags) {
      var items := Items(seg, specp, flags);
      TreeGrammar(t, items, seg, stop, flags);
    }
    if items :| C.AllFormed(items) && C.Flat(items) == seg && C.Permitted(items, specp, flags)
                && SimpleTree(t, items, seg, stop) {
      TreeGrammar(t, items, seg, stop, flags);
    }
  }

  lemma Items(seg: seq<string>, specp: bool, flags: Flags) returns (items: seq<C.Item>)
    requires Balanced(seg) && FillFrom(seg, FillStart, specp, flags).err.None?
    ensures C.AllFormed(items) && C.Flat(items) == seg && C.Permitted(items, specp, flags)
  {
    C.GatheredExactly(seg, specp, flags);
    items :| C.AllFormed(items) && C.Flat(items) == seg && C.Permitted(items, specp, flags);
  }

  lemma {:induction false} TreeGrammar(t: Cmd, items: seq<C.Item>, seg: seq<string>, stop: char, flags: Flags)
    requires Balanced(seg) && C.AllFormed(items) && C.Flat(items) == seg && C.Permitted(items, IsSpecial(seg), flags)
    requires IsSpecial(seg) <==> TakesParens(seg)
    ensures Gives(t, 5, seg, stop, flags) <==> SimpleTree(t, items, seg, stop)
    decreases |seg|, 1, 0
  {
    var specp := IsSpecial(seg);
    var st := FillFrom(seg, FillStart, specp, flags);
    C.ItemsGathered(items, specp, flags);
    PairBalanced(seg, specp, flags);
    if st.lp.Some? && !specp {
      var inner := seg[st.lp.value..st.rp.value];
      assert inner == C.Groups(items)[0].inner;
      if t.Paren? { Grammar(t.sub, 0, inner, ')', Flags(true, false, false, false)); }
      GroupStep(seg, st, stop, flags);
    } else {
      WordsStep(seg, st, stop, flags);
    }
  }

  lemma GroupStep(seg: seq<string>, st: Fill, stop: char, flags: Flags)
    requires Balanced(seg) && !IsSpecial(seg) && st == FillFrom(seg, FillStart, false, flags)
    requires st.err.None? && st.lp.Some? && st.rp.Some? && st.lp.value <= st.rp.value < |seg|
    requires Balanced(seg[st.lp.value..st.rp.value])
    ensures var sub := R.SynAt(0, seg[st.lp.value..st.rp.value], ')', Flags(true, false, false, false));
            R.SynAt(5, seg, stop, flags) ==
            Parsed(Paren(sub.cmd, st.redirs, false, stop == ')'),
                   Earliest(if st.av != [] then Some(BadPLPS) else None, sub.err))
  {
  }

  lemma WordsStep(seg: seq<string>, st: Fill, stop: char, flags: Flags)
    requires Balanced(seg) && st == FillFrom(seg, FillStart, IsSpecial(seg), flags) && st.err.None?
    requires st.lp.None? || IsSpecial(seg)
    ensures R.SynAt(5, seg, stop, flags) ==
            Parsed(Command(st.av, st.redirs, false, stop == ')'), if st.av == [] then Some(NullCom) else None)
  {
  }

  // An open parenthesis left over is an error wherever it stands.
  lemma {:induction false} OpenIsError(seg: seq<string>, stop: char, flags: Flags)
    requires NonNegative(seg) && !Balanced(seg)
    ensures Syntax(seg, stop, flags).err.Some?
    decreases |seg|, 1
  {
    var rest := OpenSkip(seg, stop, flags);
    OpenInList(rest, stop, flags);
  }

  lemma OpenSkip(seg: seq<string>, stop: char, flags: Flags) returns (rest: seq<string>)
    requires NonNegative(seg) && !Balanced(seg)
    ensures |rest| <= |seg| && NonNegative(rest) && Depth(rest, |rest|) > 0
    ensures Syntax(seg, stop, flags) == Syn0(rest, stop, flags)
  {
    rest := SkippedOpen(seg);
    SyntaxOfRest(seg, stop, flags);
  }

  lemma SkippedOpen(seg: seq<string>) returns (rest: seq<string>)
    requires NonNegative(seg) && !Balanced(seg)
    ensures rest == SkipSeps(seg) && rest != [] && NonNegative(rest) && Depth(rest, |rest|) > 0
  {
    var n := SkipSepsIs(seg);
    SkipSepsCut(seg);
    SeparatorsFlat(seg, n);
    DepthSuffix(seg, n, |seg| - n);
    rest := seg[n..];
  }

  lemma SyntaxOfRest(seg: seq<string>, stop: char, flags: Flags)
    requires NonNegative(seg) && NonNegative(SkipSeps(seg)) && SkipSeps(seg) != []
    ensures Syntax(seg, stop, flags) == Syn0(SkipSeps(seg), stop, flags)
  {
  }

  lemma {:induction false} SeparatorsFlat(seg: seq<string>, n: nat)
    requires Separators(seg, n)
    ensures Depth(seg, n) == 0
  {
    if n > 0 {
      assert IsSeparator(seg[n - 1]);
      SeparatorsFlat(seg, n - 1);
    }
  }

  lemma {:induction false} OpenInList(seg: seq<string>, stop: char, flags: Flags)
    requires NonNegative(seg) && Depth(seg, |seg|) > 0
    ensures Syn0(seg, stop, flags).err.Some?
    decreases |seg|, 0
  {
    match FindTop(Amp, seg, 0) {
      case None => OpenAlone(seg, stop, flags);
      case Some(k) =>
        var r := OpenRest(seg, k);
        OpenIsError(r, stop, flags);
        OpenBehind(seg, k, r, stop, flags);
    }
  }

  lemma OpenAlone(seg: seq<string>, stop: char, flags: Flags)
    requires NonNegative(seg) && Depth(seg, |seg|) > 0 && FindTop(Amp, seg, 0) == None
    ensures Syn0(seg, stop, flags).err == Some(TooManyLP)
  {
  }

  lemma OpenRest(seg: seq<string>, k: nat) returns (r: seq<string>)
    requires NonNegative(seg) && Depth(seg, |seg|) > 0 && FindTop(Amp, seg, 0) == Some(k)
    ensures k < |seg| && r == seg[k + 1..] && NonNegative(r) && !Balanced(r)
  {
    Cut(seg, k);
    HitDepth(Amp, seg, k);
    Cut(seg, k + 1);
    r := seg[k + 1..];
    DepthSuffix(seg, k + 1, |r|);
  }

  lemma OpenBehind(seg: seq<string>, k: nat, r: seq<string>, stop: char, flags: Flags)
    requires NonNegative(seg) && FindTop(Amp, seg, 0) == Some(k) && k < |seg| && r == seg[k + 1..]
    requires NonNegative(r) && Syntax(r, stop, flags).err.Some?
    ensures Syn0(seg, stop, flags).err.Some?
  {
    OpenStep(seg, k, stop, flags);
  }

  // The first & splits a list whose parentheses need not be closed.
  lemma OpenStep(seg: seq<string>, k: nat, stop: char, flags: Flags)
    requires NonNegative(seg) && FindTop(Amp, seg, 0) == Some(k)
    ensures k < |seg| && Balanced(seg[..k]) && NonNegative(seg[k + 1..]) && Depth(seg, k + 1) == 0
    ensures var a := R.SynAt(1, seg[..k], '&', flags);
            Syn0(seg, stop, flags).err == Earliest(a.err, Syntax(seg[k + 1..], stop, flags).err)
  {
    Cut(seg, k);
    HitDepth(Amp, seg, k);
    Cut(seg, k + 1);
    assert seg[k..][1..] == seg[k + 1..];
    SyntaxSkips(seg[k..], stop, flags);
  }

  // A word list is parsed to a tree, or to nothing, without an error exactly when its
  // parentheses are balanced and the grammar derives that from it.
  lemma SyntaxIs(t: Option<Cmd>, seg: seq<string>, stop: char, flags: Flags)
    requires NonNegative(seg)
    ensures Syntax(seg, stop, flags) == Maybe(t, None) <==> Balanced(seg) && Behind(t, seg, stop, flags)
  {
    if Balanced(seg) { BehindGrammar(t, seg, stop, flags); } else { OpenIsError(seg, stop, flags); }
  }
}

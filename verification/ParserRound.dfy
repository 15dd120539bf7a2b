// Parsing a printed tree gives the tree back.
module ParserRound {
  import opened Shared
  import opened Keywords
  import opened Parser
  import opened ParserShow

  // The tree without the F_NOFORK hints, which depend on the word behind a segment.
  function Erase(t: Cmd): Cmd {
    match t
    case Command(av, rd, amp, _) => Command(av, rd, amp, false)
    case Paren(sub, rd, amp, _) => Paren(Erase(sub), rd, amp, false)
    case Pipe(l, r, stderr, amp) => Pipe(Erase(l), Erase(r), stderr, amp)
    case And(l, r) => And(Erase(l), Erase(r))
    case Or(l, r) => Or(Erase(l), Erase(r))
    case List(car, cdr) =>
      List(if car.None? then None else Some(Erase(car.value)), if cdr.None? then None else Some(Erase(cdr.value)))
  }

  // The parser of level k.
  ghost function SynAt(k: nat, seg: seq<string>, stop: char, flags: Flags): Parsed
    requires Balanced(seg)
  {
    if k == 0 then
      var m := Syn0(seg, stop, flags);
      Parsed(m.cmd.value, m.err)
    else if k == 1 then Syn1(seg, stop, flags)
    else if k == 2 then Syn1a(seg, stop, flags)
    else if k == 3 then Syn1b(seg, stop, flags)
    else if k == 4 then Syn2(seg, stop, flags)
    else Syn3(seg, stop, flags)
  }

  function KindOf(k: nat): Kind {
    if k == 0 then Amp else if k == 1 then Semi else if k == 2 then OrOr else if k == 3 then AndAnd else Bar
  }

  lemma Pass(k: nat, w: seq<string>, stop: char, flags: Flags)
    requires k < 5 && Balanced(w) && Quiet(KindOf(k), w)
    ensures SynAt(k, w, stop, flags) == SynAt(k + 1, w, stop, flags)
  {
    FindQuiet(KindOf(k), w);
  }

  // ----- one operator -----

  lemma OrParsed(l: seq<string>, r: seq<string>, stop: char, flags: Flags)
    requires Solid(l, 3) && Solid(r, 2)
    ensures Balanced(l + ["||"] + r)
    ensures var a, b := Syn1b(l, '|', flags), Syn1a(r, stop, flags);
            Syn1a(l + ["||"] + r, stop, flags) == Parsed(Or(a.cmd, b.cmd), Earliest(a.err, b.err))
  {
    OpQuiet(["||"]);
    BalancedConcat(l, ["||"]);
    BalancedConcat(l + ["||"], r);
    FindJoined(OrOr, l, "||", r);
  }

  lemma AndParsed(l: seq<string>, r: seq<string>, stop: char, flags: Flags)
    requires Solid(l, 4) && Solid(r, 3)
    ensures Balanced(l + ["&&"] + r)
    ensures var a, b := Syn2(l, '&', flags), Syn1b(r, stop, flags);
            Syn1b(l + ["&&"] + r, stop, flags) == Parsed(And(a.cmd, b.cmd), Earliest(a.err, b.err))
  {
    OpQuiet(["&&"]);
    BalancedConcat(l, ["&&"]);
    BalancedConcat(l + ["&&"], r);
    FindJoined(AndAnd, l, "&&", r);
  }

  lemma PipeParsed(l: seq<string>, r: seq<string>, stderr: bool, stop: char, flags: Flags)
    requires Solid(l, 5) && Solid(r, 4)
    ensures var w := l + (if stderr then ["|", "&"] else ["|"]) + r;
            var a := Syn3(l, '|', flags.(pout := true, perr := flags.perr || stderr));
            var b := Syn2(r, stop, flags.(pin := true));
            Balanced(w) && Syn2(w, stop, flags) == Parsed(Pipe(a.cmd, b.cmd, stderr, false), Earliest(a.err, b.err))
  {
    var op := if stderr then ["|", "&"] else ["|"];
    var w := l + op + r;
    OpQuiet(op);
    BalancedConcat(l, op);
    BalancedConcat(l + op, r);
    var rest := if stderr then ["&"] + r else r;
    assert w == l + ["|"] + rest;
    FindJoined(Bar, l, "|", rest);
    assert BehindBar(w, |l|) == |l| + |op| && w[|l| + |op|..] == r;
  }

  lemma SemiParsed(l: seq<string>, r: seq<string>, stop: char, flags: Flags)
    requires Solid(l, 2) && (r == [] || Solid(r, 1))
    ensures Balanced(l + [";"] + r)
    ensures var a := Syn1a(l, ';', flags);
            var t := Syn1(l + [";"] + r, stop, flags);
            if r == [] then t == Parsed(List(None, Some(a.cmd)), a.err)
            else var b := Syn0(r, stop, flags);
                 b.cmd.Some? && t == Parsed(List(Some(a.cmd), b.cmd), Earliest(a.err, b.err))
  {
    OpQuiet([";"]);
    BalancedConcat(l, [";"]);
    if r != [] { BalancedConcat(l + [";"], r); } else { assert l + [";"] + r == l + [";"]; }
    FindJoined(Semi, l, ";", r);
  }

  lemma AmpParsed(l: seq<string>, r: seq<string>, stop: char, flags: Flags)
    requires Solid(l, 1) && (r == [] || Solid(r, 0))
    ensures Balanced(l + ["&"] + r)
    ensures var a := Syn1(l, '&', flags);
            var t := Syn0(l + ["&"] + r, stop, flags);
            if r == [] then t == Maybe(Some(List(Some(Background(a.cmd)), None)), a.err)
            else var b := Syn0(r, stop, flags);
                 b.cmd.Some? && t == Maybe(Some(List(Some(Background(a.cmd)), b.cmd)), Earliest(a.err, b.err))
  {
    OpQuiet(["&"]);
    BalancedConcat(l, ["&"]);
    if r != [] { BalancedConcat(l + ["&"], r); } else { assert l + ["&"] + r == l + ["&"]; }
    FindJoined(Amp, l, "&", r);
    assert (["&"] + r)[1..] == r;
    assert SkipSeps(["&"] + r) == r;
  }

  // ----- simple commands -----

  lemma FillOne(seg: seq<string>, st: Fill, specp: bool, flags: Flags)
    requires st.i < |seg|
    ensures FillFrom(seg, st, specp, flags) == FillFrom(seg, FillStep(seg, st, specp, flags), specp, flags)
  {
  }

  // The words of a command are saved one by one.
  lemma {:induction false} FillWords(av: seq<string>, rest: seq<string>, st0: Fill, specp: bool, flags: Flags)
      returns (st: Fill)
    requires WordsFit(av) && (specp || forall k :: 0 <= k < |av| ==> !IsParen(av[k]))
    requires st0.i <= |av| && st0.l == Depth(av, st0.i) && st0.av == av[..st0.i]
    requires st0.redirs == NoRedirs && st0.err == None && (!specp ==> st0.lp == None)
    ensures st.i == |av| && st.l == 0 && st.av == av && st.redirs == NoRedirs && st.err == None
    ensures !specp ==> st.lp == None
    ensures FillFrom(av + rest, st0, specp, flags) == FillFrom(av + rest, st, specp, flags)
    decreases |av| - st0.i
  {
    if st0.i == |av| {
      assert av[..st0.i] == av;
      return st0;
    }
    WordFacts(av, rest, st0.i, specp);
    StepSaves(av + rest, st0, av[st0.i], specp, flags);
    FillOne(av + rest, st0, specp, flags);
    st := FillWords(av, rest, FillStep(av + rest, st0, specp, flags), specp, flags);
  }

  lemma WordFacts(av: seq<string>, rest: seq<string>, i: nat, specp: bool)
    requires WordsFit(av) && (specp || forall k :: 0 <= k < |av| ==> !IsParen(av[k])) && i < |av|
    ensures (av + rest)[i] == av[i] && av[..i + 1] == av[..i] + [av[i]]
    ensures Depth(av, i) == 0 ==> IsTopWord(av[i])
    ensures !specp ==> Depth(av, i) == 0 && !IsParen(av[i])
  {
    if !specp { NoParens(av, i); }
  }

  lemma StepSaves(seg: seq<string>, st: Fill, w: string, specp: bool, flags: Flags)
    requires st.i < |seg| && seg[st.i] == w && (st.l == 0 ==> IsTopWord(w)) && (!specp ==> st.l == 0 && !IsParen(w))
    ensures var r := FillStep(seg, st, specp, flags);
            && r.i == st.i + 1 && r.av == st.av + [w] && r.redirs == st.redirs && r.err == st.err
            && (!specp ==> r.lp == st.lp)
            && r.l == st.l + (if First(w) == '(' then 1 else if First(w) == ')' then -1 else 0)
  {
  }

  lemma InputFilled(w: seq<string>, rd: Redirs, rest: seq<string>, st: Fill, flags: Flags)
    requires RedirsFit(rd, flags) && rd.input.Some?
    requires st.i == |w| && st.l == 0 && st.redirs == NoRedirs && st.err == None
    ensures var seg := w + InWords(rd) + rest;
            FillStep(seg, st, false, flags) == FillStep(seg, st, true, flags)
            == st.(i := |w| + 2, redirs := NoRedirs.(input := rd.input, read := rd.read))
  {
    var seg := w + InWords(rd) + rest;
    assert seg[|w|] == (if rd.read then "<<" else "<") && seg[|w| + 1] == rd.input.value;
  }

  lemma OutputFilled(w: seq<string>, rd: Redirs, st: Fill, flags: Flags)
    requires RedirsFit(rd, flags) && rd.output.Some?
    requires st.i == |w| && st.l == 0 && st.redirs == NoRedirs.(input := rd.input, read := rd.read) && st.err == None
    ensures var seg := w + OutWords(rd);
            FillStep(seg, st, false, flags) == FillStep(seg, st, true, flags) == st.(i := |seg|, redirs := rd)
  {
    var seg := w + OutWords(rd);
    var o := OutWords(rd);
    assert forall j :: 0 <= j < |o| ==> seg[|w| + j] == o[j];
    assert o[0] == (if rd.append then ">>" else ">") && o[|o| - 1] == rd.output.value;
    assert rd.stderr ==> o[1] == "&";
    assert rd.overwrite ==> o[|o| - 2] == "!";
    assert |o| == 2 + (if rd.stderr then 1 else 0) + (if rd.overwrite then 1 else 0);
    assert !rd.stderr ==> seg[|w| + 1] != "&";
  }

  lemma FillRedirs(w: seq<string>, rd: Redirs, st: Fill, specp: bool, flags: Flags)
    requires RedirsFit(rd, flags)
    requires st.i == |w| && st.l == 0 && st.redirs == NoRedirs && st.err == None
    ensures var seg := w + InWords(rd) + OutWords(rd);
            FillFrom(seg, st, specp, flags) == st.(i := |seg|, redirs := rd)
  {
    var seg := w + InWords(rd) + OutWords(rd);
    var st1 := st.(i := |w + InWords(rd)|, redirs := NoRedirs.(input := rd.input, read := rd.read));
    FillIn(w, rd, st, st1, specp, flags);
    FillOut(w + InWords(rd), rd, st1, specp, flags);
  }

  lemma FillIn(w: seq<string>, rd: Redirs, st: Fill, st1: Fill, specp: bool, flags: Flags)
    requires RedirsFit(rd, flags)
    requires st.i == |w| && st.l == 0 && st.redirs == NoRedirs && st.err == None
    requires st1 == st.(i := |w + InWords(rd)|, redirs := NoRedirs.(input := rd.input, read := rd.read))
    ensures var seg := w + InWords(rd) + OutWords(rd);
            FillFrom(seg, st, specp, flags) == FillFrom(seg, st1, specp, flags)
  {
    if rd.input.Some? {
      InputFilled(w, rd, OutWords(rd), st, flags);
      FillOne(w + InWords(rd) + OutWords(rd), st, specp, flags);
    } else {
      assert w + InWords(rd) == w;
    }
  }

  lemma FillOut(w: seq<string>, rd: Redirs, st: Fill, specp: bool, flags: Flags)
    requires RedirsFit(rd, flags)
    requires st.i == |w| && st.l == 0 && st.redirs == NoRedirs.(input := rd.input, read := rd.read) && st.err == None
    ensures var seg := w + OutWords(rd); FillFrom(seg, st, specp, flags) == st.(i := |seg|, redirs := rd)
  {
    if rd.output.Some? {
      OutputFilled(w, rd, st, flags);
      FillOne(w + OutWords(rd), st, specp, flags);
    } else {
      assert w + OutWords(rd) == w;
    }
  }

  // Redirections behind the words do not change whether the command is a KEYWORD one.
  lemma {:induction false} SpecialConcat(av: seq<string>, r: seq<string>)
    requires r == [] || Keyword(r[0]).None?
    ensures IsSpecial(av + r) == IsSpecial(av)
  {
    if av == [] {
      assert av + r == r;
    } else {
      assert (av + r)[1..] == av[1..] + r;
      SpecialConcat(av[1..], r);
    }
  }

  lemma NotKeyword(rd: Redirs)
    ensures var r := InWords(rd) + OutWords(rd); r == [] || Keyword(r[0]).None?
  {
    var r := InWords(rd) + OutWords(rd);
    if rd.input.None? && rd.output.Some? { assert r[0] == if rd.append then ">>" else ">"; }
    SignsAreNoKeywords();
  }

  lemma SignsAreNoKeywords()
    ensures Keyword("<") == Keyword("<<") == Keyword(">") == Keyword(">>") == Keyword("(") == None
  {
    assert forall t :: t in ["@", "break", "breaksw", "case", "default", "else", "end", "endif", "endsw", "exit",
                             "foreach", "goto", "if", "label", "set", "switch", "while"] ==>
             First(t) != '<' && First(t) != '>' && First(t) != '(';
  }

  lemma CommandParsed(t: Cmd, stop: char, flags: Flags)
    requires t.Command? && t.av != [] && WordsFit(t.av) && RedirsFit(t.redirs, flags)
    ensures var w := t.av + InWords(t.redirs) + OutWords(t.redirs);
            Balanced(w) && Syn3(w, stop, flags) == Parsed(Command(t.av, t.redirs, false, stop == ')'), None)
  {
    CommandBalanced(t.av, t.redirs, flags);
    CommandFilled(t.av, t.redirs, flags);
  }

  lemma CommandBalanced(av: seq<string>, rd: Redirs, flags: Flags)
    requires WordsFit(av) && RedirsFit(rd, flags)
    ensures var w := av + InWords(rd) + OutWords(rd); Balanced(w) && IsSpecial(w) == IsSpecial(av)
  {
    var r := InWords(rd) + OutWords(rd);
    assert av + InWords(rd) + OutWords(rd) == av + r;
    RedirWordsQuiet(rd, flags);
    BalancedConcat(av, r);
    NotKeyword(rd);
    SpecialConcat(av, r);
  }

  lemma CommandFilled(av: seq<string>, rd: Redirs, flags: Flags)
    requires WordsFit(av) && RedirsFit(rd, flags)
    ensures var w := av + InWords(rd) + OutWords(rd);
            var st := FillFrom(w, FillStart, IsSpecial(av), flags);
            st.av == av && st.redirs == rd && st.err == None && (!IsSpecial(av) ==> st.lp == None)
  {
    var r := InWords(rd) + OutWords(rd);
    assert av + InWords(rd) + OutWords(rd) == av + r && av[..0] == [];
    var st := FillWords(av, r, FillStart, IsSpecial(av), flags);
    FillRedirs(av, rd, st, IsSpecial(av), flags);
  }

  // Between the outer parentheses nothing is saved.
  lemma {:induction false} FillInside(s: seq<string>, rest: seq<string>, j: nat, flags: Flags)
    requires Balanced(s) && j <= |s|
    ensures var seg := ["("] + s + [")"] + rest;
            FillFrom(seg, Fill(1 + j, 1 + Depth(s, j), [], Some(1), None, NoRedirs, None), false, flags)
            == FillFrom(seg, Fill(|s| + 2, 0, [], Some(1), Some(|s| + 1), NoRedirs, None), false, flags)
    decreases |s| - j
  {
    var seg := ["("] + s + [")"] + rest;
    var st := Fill(1 + j, 1 + Depth(s, j), [], Some(1), None, NoRedirs, None);
    FillOne(seg, st, false, flags);
    InsideStep(s, rest, j, st, flags);
    if j < |s| { FillInside(s, rest, j + 1, flags); }
  }

  lemma InsideStep(s: seq<string>, rest: seq<string>, j: nat, st: Fill, flags: Flags)
    requires Balanced(s) && j <= |s| && st == Fill(1 + j, 1 + Depth(s, j), [], Some(1), None, NoRedirs, None)
    ensures FillStep(["("] + s + [")"] + rest, st, false, flags)
         == if j < |s| then Fill(2 + j, 1 + Depth(s, j + 1), [], Some(1), None, NoRedirs, None)
            else Fill(|s| + 2, 0, [], Some(1), Some(|s| + 1), NoRedirs, None)
  {
    var seg := ["("] + s + [")"] + rest;
    if j < |s| {
      assert seg[1 + j] == s[j];
      assert Depth(s, j + 1) >= 0;
    } else {
      assert seg[|s| + 1] == ")";
    }
  }

  lemma GroupBalanced(s: seq<string>, rd: Redirs, flags: Flags)
    requires Balanced(s) && RedirsFit(rd, flags)
    ensures var w := ["("] + s + [")"] + InWords(rd) + OutWords(rd);
            Balanced(w) && !IsSpecial(w) && w[1..|s| + 1] == s
  {
    var g := ["("] + s + [")"];
    var r := InWords(rd) + OutWords(rd);
    var w := g + InWords(rd) + OutWords(rd);
    assert w == g + r;
    GroupSolid(s);
    RedirWordsQuiet(rd, flags);
    BalancedConcat(g, r);
    SignsAreNoKeywords();
    assert w[0] == "(";
  }

  lemma GroupFilled(s: seq<string>, rd: Redirs, flags: Flags)
    requires Balanced(s) && RedirsFit(rd, flags)
    ensures var w := ["("] + s + [")"] + InWords(rd) + OutWords(rd);
            FillFrom(w, FillStart, false, flags) == Fill(|w|, 0, [], Some(1), Some(|s| + 1), rd, None)
  {
    var g := ["("] + s + [")"];
    var r := InWords(rd) + OutWords(rd);
    var w := g + InWords(rd) + OutWords(rd);
    assert w == g + r == ["("] + s + [")"] + r;
    assert w[0] == "(";
    FillOne(w, FillStart, false, flags);
    FillInside(s, r, 0, flags);
    var st := Fill(|s| + 2, 0, [], Some(1), Some(|s| + 1), NoRedirs, None);
    FillRedirs(g, rd, st, false, flags);
  }

  lemma GroupParsed(s: seq<string>, rd: Redirs, stop: char, flags: Flags)
    requires Balanced(s) && RedirsFit(rd, flags)
    ensures var w := ["("] + s + [")"] + InWords(rd) + OutWords(rd);
            var b := Syn0(s, ')', Here);
            Balanced(w) && b.cmd.Some?
            && Syn3(w, stop, flags) == Parsed(Paren(b.cmd.value, rd, false, stop == ')'), b.err)
  {
    GroupBalanced(s, rd, flags);
    GroupFilled(s, rd, flags);
  }

  // ----- the theorem for printed trees -----

  lemma BackgroundErased(t: Cmd, u: Cmd)
    requires Erase(t) == Erase(u)
    ensures Erase(Background(t)) == Erase(Background(u))
  {
  }

  // A tree in the foreground.
  function Unamp(t: Cmd): Cmd {
    match t
    case Command(av, rd, _, nofork) => Command(av, rd, false, nofork)
    case Paren(sub, rd, _, nofork) => Paren(sub, rd, false, nofork)
    case Pipe(l, r, stderr, _) => Pipe(l, r, stderr, false)
    case _ => t
  }

  // Parsing what is printed for a tree of level k gives the tree, its own & apart.
  lemma {:induction false} ShowParsed(t: Cmd, k: nat, stop: char, flags: Flags)
    requires k <= 5 && Fits(t, k, flags) && !IsBare(t)
    ensures Balanced(Show(t))
    ensures var r := SynAt(k, Show(t), stop, flags); r.err.None? && Erase(r.cmd) == Erase(Unamp(t))
    decreases t, 6 - k
  {
    ShowSolid(t, k, flags);
    if t.List? && k == 0 && t.car.Some? && IsAmp(t.car.value) {
      ListAmpParsed(t, stop, flags);
    } else if t.List? && k == 1 {
      ListParsed(t, stop, flags);
    } else if t.Or? && k == 2 {
      EitherParsed(t, '|', k, stop, flags);
    } else if t.And? && k == 3 {
      EitherParsed(t, '&', k, stop, flags);
    } else if t.Pipe? && k == 4 {
      BarredParsed(t, stop, flags);
    } else if k < 5 {
      ShowParsed(t, k + 1, stop, flags);
      ShowSolid(t, k + 1, flags);
      Pass(k, Show(t), stop, flags);
    } else if t.Command? {
      CommandParsed(t, stop, flags);
    } else {
      ParensParsed(t, stop, flags);
    }
  }

  lemma {:induction false} EitherParsed(t: Cmd, sign: char, k: nat, stop: char, flags: Flags)
    requires (t.Or? && k == 2 && sign == '|') || (t.And? && k == 3 && sign == '&')
    requires Fits(t, k, flags)
    ensures Balanced(Show(t))
    ensures var r := SynAt(k, Show(t), stop, flags); r.err.None? && Erase(r.cmd) == Erase(t)
    decreases t, 0
  {
    ShowParsed(t.l, k + 1, sign, flags);
    ShowParsed(t.r, k, stop, flags);
    ShowSolid(t.l, k + 1, flags);
    ShowSolid(t.r, k, flags);
    UnampNothing(t.l);
    UnampNothing(t.r);
    if t.Or? { OrParsed(Show(t.l), Show(t.r), stop, flags); } else { AndParsed(Show(t.l), Show(t.r), stop, flags); }
  }

  lemma {:induction false} ParensParsed(t: Cmd, stop: char, flags: Flags)
    requires t.Paren? && Fits(t, 5, flags) && !IsBare(t)
    ensures Balanced(Show(t))
    ensures var r := SynAt(5, Show(t), stop, flags); r.err.None? && Erase(r.cmd) == Erase(Unamp(t))
    decreases t, 0
  {
    ShowParsed(t.sub, 0, ')', Here);
    GroupParsed(Show(t.sub), t.redirs, stop, flags);
    UnampNothing(t.sub);
  }

  lemma UnampNothing(t: Cmd)
    requires !IsAmp(t)
    ensures Unamp(t) == t
  {
  }

  lemma {:induction false} BarredParsed(t: Cmd, stop: char, flags: Flags)
    requires t.Pipe? && Fits(t, 4, flags)
    ensures Balanced(Show(t))
    ensures var r := Syn2(Show(t), stop, flags); r.err.None? && Erase(r.cmd) == Erase(Unamp(t))
    decreases t, 0
  {
    var lf, rf := flags.(pout := true, perr := flags.perr || t.stderr), flags.(pin := true);
    ShowParsed(t.l, 5, '|', lf);
    ShowParsed(t.r, 4, stop, rf);
    ShowSolid(t.l, 5, lf);
    ShowSolid(t.r, 4, rf);
    UnampNothing(t.l);
    UnampNothing(t.r);
    PipeParsed(Show(t.l), Show(t.r), t.stderr, stop, flags);
  }

  lemma {:induction false} ListParsed(t: Cmd, stop: char, flags: Flags)
    requires t.List? && Fits(t, 1, flags)
    ensures Balanced(Show(t))
    ensures var r := Syn1(Show(t), stop, flags); r.err.None? && Erase(r.cmd) == Erase(t)
    decreases t, 0
  {
    var y := t.cdr.value;
    UnampNothing(y);
    if t.car.None? {
      ShowParsed(y, 2, ';', flags);
      ShowSolid(y, 2, flags);
      SemiParsed(Show(y), [], stop, flags);
      assert Show(t) == Show(y) + [";"] + [];
    } else {
      var x := t.car.value;
      UnampNothing(x);
      ShowParsed(x, 2, ';', flags);
      ShowSolid(x, 2, flags);
      ShowParsed(y, 1, stop, flags);
      ShowSolid(y, 1, flags);
      SemiParsed(Show(x), Show(y), stop, flags);
      Pass(0, Show(y), stop, flags);
    }
  }

  lemma {:induction false} ListAmpParsed(t: Cmd, stop: char, flags: Flags)
    requires t.List? && t.car.Some? && IsAmp(t.car.value) && Fits(t, 0, flags)
    ensures Balanced(Show(t))
    ensures var r := SynAt(0, Show(t), stop, flags); r.err.None? && Erase(r.cmd) == Erase(t)
    decreases t, 0
  {
    var a := t.car.value;
    BackSolid(a, flags);
    if IsBare(a) { BareParsed(a, Show(a), flags); } else { PlainParsed(a, Show(a), flags); }
    if t.cdr.Some? {
      var y := t.cdr.value;
      UnampNothing(y);
      ShowParsed(y, 0, stop, flags);
      ShowSolid(y, 0, flags);
      AmpParsed(Show(a), Show(y), stop, flags);
    } else {
      AmpParsed(Show(a), [], stop, flags);
      assert Show(t) == Show(a) + ["&"] + [];
    }
  }

  lemma {:induction false} BareParsed(a: Cmd, w: seq<string>, flags: Flags)
    requires IsAmp(a) && IsBare(a) && Fits(a.sub, 1, flags) && w == Show(a) && Balanced(w)
    ensures var r := Syn1(w, '&', flags); r.err.None? && Erase(Background(r.cmd)) == Erase(a)
    decreases a, 7
  {
    ShowParsed(a.sub, 1, '&', flags);
    BackgroundErased(Syn1(w, '&', flags).cmd, a.sub);
  }

  lemma {:induction false} PlainParsed(a: Cmd, w: seq<string>, flags: Flags)
    requires IsAmp(a) && !IsBare(a) && Fits(a, 4, flags) && w == Show(a) && Balanced(w)
    ensures var r := Syn1(w, '&', flags); r.err.None? && Erase(Background(r.cmd)) == Erase(a)
    decreases a, 7
  {
    ShowParsed(a, 4, '&', flags);
    ShowSolid(a, 4, flags);
    Pass(1, w, '&', flags);
    Pass(2, w, '&', flags);
    Pass(3, w, '&', flags);
    BackgroundErased(Syn1(w, '&', flags).cmd, Unamp(a));
    assert Background(Unamp(a)) == a;
  }
}

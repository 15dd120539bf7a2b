// Which error the command parser raises, and for which words (bin/csh/parse.c: syntax,
// syn0 ... syn3): the first one met from left to right.
module ParserErrors {
  import opened Shared
  import opened Parser
  import opened ParserGrammar
  import C = CommandWords
  import E = CommandErrors
  import R = ParserRound

  // The words are derived from the grammar at a level.
  ghost predicate Works(level: nat, seg: seq<string>, stop: char, flags: Flags) {
    exists t :: Derives(t, level, seg, stop, flags)
  }

  // The error e is met in the words at a level: in front of the operator that splits them,
  // or behind it when what is in front is a command.
  ghost predicate Fails(e: Error, level: nat, seg: seq<string>, stop: char, flags: Flags)
    decreases |seg|, if level < 5 then 8 - level else 3, 1
  {
    if level >= 5 then SimpleFails(e, seg, stop, flags)
    else if !NoOp(level, seg) then
      exists k: nat :: k < |seg| && FirstOp(level, seg, k) && PartFails(e, level, seg, k, stop, flags)
    else if level == 0 && !Balanced(seg) then e == TooManyLP
    else Fails(e, level + 1, seg, stop, flags)
  }

  ghost predicate PartFails(e: Error, level: nat, seg: seq<string>, k: nat, stop: char, flags: Flags)
    requires level < 5 && k < |seg|
    decreases |seg|, 8 - level, 0
  {
    var l, r := seg[..k], seg[k + 1..];
    if level == 0 then
      Fails(e, 1, l, '&', flags) || (Works(1, l, '&', flags) && BehindFails(e, r, stop, flags))
    else if level == 1 then
      Fails(e, 2, l, First(seg[k]), flags) || (Works(2, l, First(seg[k]), flags) && BehindFails(e, r, stop, flags))
    else if level == 2 then
      Fails(e, 3, l, '|', flags) || (Works(3, l, '|', flags) && Fails(e, 2, r, stop, flags))
    else if level == 3 then
      Fails(e, 4, l, '&', flags) || (Works(4, l, '&', flags) && Fails(e, 3, r, stop, flags))
    else
      var err := r != [] && C.Begins(r[0], '&');
      var out := flags.(pout := true, perr := flags.perr || err);
      || Fails(e, 5, l, '|', out)
      || (Works(5, l, '|', out) && Fails(e, 4, if err then r[1..] else r, stop, flags.(pin := true)))
  }

  // Behind separators.
  ghost predicate BehindFails(e: Error, seg: seq<string>, stop: char, flags: Flags)
    decreases |seg|, 9
  {
    exists n: nat :: n < |seg| && Separators(seg, n) && !IsSeparator(seg[n]) && Fails(e, 0, seg[n..], stop, flags)
  }

  // In a simple command: where its words are gathered, or in what they make.
  ghost predicate SimpleFails(e: Error, seg: seq<string>, stop: char, flags: Flags)
    decreases |seg|, 2
  {
    GatheringFails(e, seg, flags) || MadeFails(e, seg, flags)
  }

  ghost predicate GatheringFails(e: Error, seg: seq<string>, flags: Flags) {
    exists items, tail :: E.Offence(e, items, tail, seg, TakesParens(seg), flags)
  }

  ghost predicate MadeFails(e: Error, seg: seq<string>, flags: Flags)
    decreases |seg|, 1, 1
  {
    exists items ::
      C.AllFormed(items) && C.Flat(items) == seg && C.Permitted(items, TakesParens(seg), flags)
      && TreeFails(e, items, seg)
  }

  // Words beside a group, an error in the group, or no words at all.
  ghost predicate TreeFails(e: Error, items: seq<C.Item>, seg: seq<string>)
    decreases |seg|, 1, 0
  {
    var groups, words := C.Groups(items), C.Words(items, TakesParens(seg));
    if groups != [] && !TakesParens(seg) then
      if words != [] then e == BadPLPS
      else |groups[0].inner| < |seg| && Fails(e, 0, groups[0].inner, ')', Flags(true, false, false, false))
    else words == [] && e == NullCom
  }

  // ----- the parser -----

  lemma WorksIs(level: nat, seg: seq<string>, stop: char, flags: Flags)
    requires level <= 5 && Balanced(seg)
    ensures Works(level, seg, stop, flags) <==> R.SynAt(level, seg, stop, flags).err.None?
  {
    var r := R.SynAt(level, seg, stop, flags);
    Grammar(r.cmd, level, seg, stop, flags);
    if t :| Derives(t, level, seg, stop, flags) { Grammar(t, level, seg, stop, flags); }
  }

  // The error e comes out of the parser.
  ghost predicate Raises(e: Error, level: nat, seg: seq<string>, stop: char, flags: Flags)
    requires Balanced(seg)
  {
    R.SynAt(level, seg, stop, flags).err == Some(e)
  }

  lemma {:induction false} ErrorIs(e: Error, level: nat, seg: seq<string>, stop: char, flags: Flags)
    requires level <= 5 && Balanced(seg)
    ensures Raises(e, level, seg, stop, flags) <==> Fails(e, level, seg, stop, flags)
    decreases |seg|, 6 - level, 3
  {
    if level == 5 {
      SimpleErrorIs(e, seg, stop, flags);
    } else {
      FirstIs(level, seg);
      match FindTop(R.KindOf(level), seg, 0) {
        case None =>
          NoneStep(level, seg, stop, flags);
          ErrorIs(e, level + 1, seg, stop, flags);
        case Some(k) =>
          PartErrorIs(e, level, seg, k, stop, flags);
          forall j: nat | j < |seg| && FirstOp(level, seg, j) ensures j == k { OnlyFirst(level, seg, j, k); }
      }
    }
  }

  lemma {:induction false} PartErrorIs(e: Error, level: nat, seg: seq<string>, k: nat, stop: char, flags: Flags)
    requires level < 5 && Balanced(seg) && FindTop(R.KindOf(level), seg, 0) == Some(k) && k < |seg|
    ensures Raises(e, level, seg, stop, flags) <==> PartFails(e, level, seg, k, stop, flags)
    decreases |seg|, 6 - level, 1
  {
    if level == 0 {
      AmpErrorIs(e, seg, k, stop, flags);
    } else if level == 1 {
      SemiErrorIs(e, seg, k, stop, flags);
    } else if level == 4 {
      PipeErrorIs(e, seg, k, stop, flags);
    } else {
      EitherErrorIs(e, level, seg, k, stop, flags);
    }
  }

  lemma {:induction false} AmpErrorIs(e: Error, seg: seq<string>, k: nat, stop: char, flags: Flags)
    requires Balanced(seg) && FindTop(Amp, seg, 0) == Some(k) && k < |seg|
    ensures Raises(e, 0, seg, stop, flags) <==> PartFails(e, 0, seg, k, stop, flags)
    decreases |seg|, 6, 0
  {
    AmpStep(seg, k, stop, flags);
    WorksIs(1, seg[..k], '&', flags);
    ErrorIs(e, 1, seg[..k], '&', flags);
    BehindErrorIs(e, seg[k + 1..], stop, flags);
  }

  lemma {:induction false} SemiErrorIs(e: Error, seg: seq<string>, k: nat, stop: char, flags: Flags)
    requires Balanced(seg) && FindTop(Semi, seg, 0) == Some(k) && k < |seg|
    ensures Raises(e, 1, seg, stop, flags) <==> PartFails(e, 1, seg, k, stop, flags)
    decreases |seg|, 5, 0
  {
    SemiStep(seg, k, stop, flags);
    WorksIs(2, seg[..k], First(seg[k]), flags);
    ErrorIs(e, 2, seg[..k], First(seg[k]), flags);
    BehindErrorIs(e, seg[k + 1..], stop, flags);
  }

  lemma {:induction false} EitherErrorIs(e: Error, level: nat, seg: seq<string>, k: nat, stop: char, flags: Flags)
    requires (level == 2 || level == 3) && Balanced(seg) && FindTop(R.KindOf(level), seg, 0) == Some(k) && k < |seg|
    ensures Raises(e, level, seg, stop, flags) <==> PartFails(e, level, seg, k, stop, flags)
    decreases |seg|, 6 - level, 0
  {
    EitherStep(level, seg, k, stop, flags);
    WorksIs(level + 1, seg[..k], if level == 2 then '|' else '&', flags);
    ErrorIs(e, level + 1, seg[..k], if level == 2 then '|' else '&', flags);
    ErrorIs(e, level, seg[k + 1..], stop, flags);
  }

  lemma {:induction false} PipeErrorIs(e: Error, seg: seq<string>, k: nat, stop: char, flags: Flags)
    requires Balanced(seg) && FindTop(Bar, seg, 0) == Some(k) && k < |seg|
    ensures Raises(e, 4, seg, stop, flags) <==> PartFails(e, 4, seg, k, stop, flags)
    decreases |seg|, 2, 0
  {
    PipeStep(seg, k, stop, flags);
    var err, r := BehindBar(seg, k) == k + 2, seg[k + 1..];
    var out := flags.(pout := true, perr := flags.perr || err);
    assert err <==> r != [] && C.Begins(r[0], '&');
    assert err ==> r[1..] == seg[k + 2..];
    WorksIs(5, seg[..k], '|', out);
    ErrorIs(e, 5, seg[..k], '|', out);
    ErrorIs(e, 4, seg[BehindBar(seg, k)..], stop, flags.(pin := true));
  }

  lemma {:induction false} SimpleErrorIs(e: Error, seg: seq<string>, stop: char, flags: Flags)
    requires Balanced(seg)
    ensures Raises(e, 5, seg, stop, flags) <==> SimpleFails(e, seg, stop, flags)
    decreases |seg|, 1, 2
  {
    SpecialIs(seg);
    var st := FillFrom(seg, FillStart, IsSpecial(seg), flags);
    E.GatherFails(e, seg, IsSpecial(seg), flags);
    if st.err.None? {
      MadeErrorIs(e, seg, stop, flags);
    } else {
      NothingMade(e, seg, flags);
      FillErrorCounts(seg, st, stop, flags);
    }
  }

  lemma NothingMade(e: Error, seg: seq<string>, flags: Flags)
    requires Balanced(seg) && FillFrom(seg, FillStart, IsSpecial(seg), flags).err.Some?
    requires IsSpecial(seg) <==> TakesParens(seg)
    ensures !MadeFails(e, seg, flags)
  {
    C.GatheredExactly(seg, IsSpecial(seg), flags);
  }

  lemma {:induction false} MadeErrorIs(e: Error, seg: seq<string>, stop: char, flags: Flags)
    requires Balanced(seg) && FillFrom(seg, FillStart, IsSpecial(seg), flags).err.None?
    requires IsSpecial(seg) <==> TakesParens(seg)
    ensures Raises(e, 5, seg, stop, flags) <==> MadeFails(e, seg, flags)
    decreases |seg|, 1, 1
  {
    var specp := IsSpecial(seg);
    var items := Items(seg, specp, flags);
    TreeErrorIs(e, items, seg, stop, flags);
    if MadeFails(e, seg, flags) {
      var others :| C.AllFormed(others) && C.Flat(others) == seg && C.Permitted(others, specp, flags)
                    && TreeFails(e, others, seg);
      TreeErrorIs(e, others, seg, stop, flags);
    }
  }

  lemma FillErrorCounts(seg: seq<string>, st: Fill, stop: char, flags: Flags)
    requires Balanced(seg) && st == FillFrom(seg, FillStart, IsSpecial(seg), flags) && st.err.Some?
    ensures R.SynAt(5, seg, stop, flags).err == st.err
  {
  }

  lemma {:induction false} TreeErrorIs(e: Error, items: seq<C.Item>, seg: seq<string>, stop: char, flags: Flags)
    requires Balanced(seg) && C.AllFormed(items) && C.Flat(items) == seg && C.Permitted(items, IsSpecial(seg), flags)
    requires IsSpecial(seg) <==> TakesParens(seg)
    ensures Raises(e, 5, seg, stop, flags) <==> TreeFails(e, items, seg)
    decreases |seg|, 1, 0
  {
    var st, words, groups := Gathered(items, seg, flags);
    if st.lp.Some? && !IsSpecial(seg) {
      ErrorIs(e, 0, groups[0].inner, ')', Flags(true, false, false, false));
      GroupStep(seg, st, stop, flags);
    } else {
      WordsStep(seg, st, stop, flags);
    }
  }

  // What the loop has gathered at the end.
  lemma Gathered(items: seq<C.Item>, seg: seq<string>, flags: Flags)
      returns (st: Fill, words: seq<string>, groups: seq<C.Item>)
    requires Balanced(seg) && C.AllFormed(items) && C.Flat(items) == seg && C.Permitted(items, IsSpecial(seg), flags)
    requires IsSpecial(seg) <==> TakesParens(seg)
    ensures st == FillFrom(seg, FillStart, IsSpecial(seg), flags) && st.err.None?
    ensures words == C.Words(items, TakesParens(seg)) == st.av && groups == C.Groups(items)
    ensures !IsSpecial(seg) ==> (st.lp.Some? <==> groups != [])
    ensures st.lp.Some? && !IsSpecial(seg) ==>
              && st.rp.Some? && st.lp.value <= st.rp.value < |seg| && groups[0].Group?
              && seg[st.lp.value..st.rp.value] == groups[0].inner && Balanced(groups[0].inner)
              && |groups[0].inner| < |seg|
  {
    st := FillFrom(seg, FillStart, IsSpecial(seg), flags);
    words, groups := C.Words(items, TakesParens(seg)), C.Groups(items);
    C.ItemsGathered(items, IsSpecial(seg), flags);
    if !IsSpecial(seg) {
      assert C.Grouped(seg, st, groups) && |groups| <= 1;
      if st.lp.Some? {
        PairBalanced(seg, false, flags);
        GroupHeld(seg, st, groups);
      }
    }
  }

  lemma GroupHeld(seg: seq<string>, st: Fill, groups: seq<C.Item>)
    requires C.Grouped(seg, st, groups) && |groups| <= 1 && st.lp.Some? && st.rp.Some?
    requires st.lp.value <= st.rp.value < |seg| && Balanced(seg[st.lp.value..st.rp.value])
    ensures groups[0].Group? && seg[st.lp.value..st.rp.value] == groups[0].inner
    ensures Balanced(groups[0].inner) && |groups[0].inner| < |seg|
  {
  }

  // Behind separators, and with parentheses that may be left open.
  lemma {:induction false} BehindErrorIs(e: Error, seg: seq<string>, stop: char, flags: Flags)
    requires NonNegative(seg)
    ensures Syntax(seg, stop, flags).err == Some(e) <==> BehindFails(e, seg, stop, flags)
    decreases |seg|, 8, 0
  {
    var n := SkipSepsIs(seg);
    SkipSepsCut(seg);
    if n < |seg| {
      ListErrorIs(e, seg[n..], stop, flags);
      forall m: nat | m < |seg| && Separators(seg, m) && !IsSeparator(seg[m]) ensures m == n { OneStart(seg, m, n); }
    }
  }

  lemma {:induction false} ListErrorIs(e: Error, seg: seq<string>, stop: char, flags: Flags)
    requires NonNegative(seg)
    ensures Syn0(seg, stop, flags).err == Some(e) <==> Fails(e, 0, seg, stop, flags)
    decreases |seg|, 7, 0
  {
    if Balanced(seg) {
      ErrorIs(e, 0, seg, stop, flags);
    } else {
      FirstIs(0, seg);
      match FindTop(Amp, seg, 0) {
        case None =>
        case Some(k) =>
          OpenErrorIs(e, seg, k, stop, flags);
          forall j: nat | j < |seg| && FirstOp(0, seg, j) ensures j == k { OnlyFirst(0, seg, j, k); }
      }
    }
  }

  lemma {:induction false} OpenErrorIs(e: Error, seg: seq<string>, k: nat, stop: char, flags: Flags)
    requires NonNegative(seg) && FindTop(Amp, seg, 0) == Some(k) && k < |seg|
    ensures Syn0(seg, stop, flags).err == Some(e) <==> PartFails(e, 0, seg, k, stop, flags)
    decreases |seg|, 6, 0
  {
    OpenStep(seg, k, stop, flags);
    WorksIs(1, seg[..k], '&', flags);
    ErrorIs(e, 1, seg[..k], '&', flags);
    BehindErrorIs(e, seg[k + 1..], stop, flags);
  }

  // Words that are not parsed raise exactly the error that is met in them; with SyntaxIs
  // every word list comes to just one tree, to nothing, or to just one error.
  lemma SyntaxFails(e: Error, seg: seq<string>, stop: char, flags: Flags)
    requires NonNegative(seg)
    ensures Syntax(seg, stop, flags).err == Some(e) <==> BehindFails(e, seg, stop, flags)
  {
    BehindErrorIs(e, seg, stop, flags);
  }
}

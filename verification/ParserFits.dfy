// Whatever the parser builds without an error is a tree that the printer is meant for;
// so parsing, printing and parsing again gives the same tree.
module ParserFits {
  import opened Shared
  import opened Keywords
  import opened Parser
  import opened ParserShow
  import opened ParserRound

  // ----- parts of quiet segments are quiet -----

  lemma QuietPrefix(kind: Kind, w: seq<string>, n: nat)
    requires n <= |w| && forall j :: 0 <= j < n ==> !TopHit(kind, w, j)
    ensures Quiet(kind, w[..n])
  {
    forall j | 0 <= j < n ensures !TopHit(kind, w[..n], j) {
      DepthPrefix(w, n, j);
      assert !TopHit(kind, w, j);
    }
  }

  lemma QuietSuffix(kind: Kind, w: seq<string>, n: nat)
    requires n <= |w| && Depth(w, n) == 0 && Quiet(kind, w)
    requires 0 < n < |w| && kind == Amp && w[n] == "&" ==> !Skipper(w[n - 1])
    ensures Quiet(kind, w[n..])
  {
    forall j | 0 <= j < |w| - n ensures !TopHit(kind, w[n..], j) {
      DepthSuffix(w, n, j);
      assert !TopHit(kind, w, n + j);
    }
  }

  // Quiet for every operator weaker than level k.
  ghost predicate QuietBelow(w: seq<string>, k: nat) {
    && (k >= 1 ==> Quiet(Amp, w)) && (k >= 2 ==> Quiet(Semi, w)) && (k >= 3 ==> Quiet(OrOr, w))
    && (k >= 4 ==> Quiet(AndAnd, w)) && (k >= 5 ==> Quiet(Bar, w))
  }

  // The part in front of the first operator of level k.
  lemma LeftQuiet(w: seq<string>, k: nat, n: nat)
    requires k <= 4 && QuietBelow(w, k) && FindTop(KindOf(k), w, 0) == Some(n)
    ensures QuietBelow(w[..n], k + 1)
  {
    if k >= 1 { QuietPrefix(Amp, w, n); }
    if k >= 2 { QuietPrefix(Semi, w, n); }
    if k >= 3 { QuietPrefix(OrOr, w, n); }
    if k >= 4 { QuietPrefix(AndAnd, w, n); }
    QuietPrefix(KindOf(k), w, n);
  }

  lemma RightQuiet(w: seq<string>, k: nat, n: nat)
    requires 0 < n <= |w| && Depth(w, n) == 0 && QuietBelow(w, k)
    requires n < |w| && w[n] == "&" ==> !Skipper(w[n - 1])
    ensures QuietBelow(w[n..], k)
  {
    if k >= 1 { QuietSuffix(Amp, w, n); }
    if k >= 2 { QuietSuffix(Semi, w, n); }
    if k >= 3 { QuietSuffix(OrOr, w, n); }
    if k >= 4 { QuietSuffix(AndAnd, w, n); }
    if k >= 5 { QuietSuffix(Bar, w, n); }
  }

  lemma {:induction false} SkipSepsQuiet(w: seq<string>, k: nat)
    requires k <= 1 && QuietBelow(w, k)
    ensures QuietBelow(SkipSeps(w), k)
  {
    if w != [] && IsSep(w[0]) {
      assert Depth(w, 1) == Depth(w, 0) == 0;
      assert !Skipper(w[0]);
      RightQuiet(w, k, 1);
      SkipSepsQuiet(w[1..], k);
    }
  }

  // ----- simple commands -----

  ghost predicate TopWords(av: seq<string>) {
    NonNegative(av) && forall k :: 0 <= k < |av| && Depth(av, k) == 0 ==> IsTopWord(av[k])
  }

  function Delta(w: string): int {
    if First(w) == '(' then 1 else if First(w) == ')' then -1 else 0
  }

  lemma AppendDepth(av: seq<string>, w: string, k: nat)
    requires k <= |av| + 1
    ensures Depth(av + [w], k) == if k <= |av| then Depth(av, k) else Depth(av, |av|) + Delta(w)
  {
    DepthLeft(av, [w], if k <= |av| then k else |av|);
  }

  lemma AppendNonNegative(av: seq<string>, w: string)
    requires NonNegative(av) && Depth(av, |av|) + Delta(w) >= 0
    ensures NonNegative(av + [w])
  {
    forall k | 0 <= k <= |av + [w]| ensures Depth(av + [w], k) >= 0 { AppendDepth(av, w, k); }
  }

  lemma AppendTopWord(av: seq<string>, w: string)
    requires TopWords(av) && Depth(av, |av|) + Delta(w) >= 0
    requires Depth(av, |av|) == 0 ==> IsTopWord(w)
    ensures TopWords(av + [w]) && Depth(av + [w], |av| + 1) == Depth(av, |av|) + Delta(w)
  {
    AppendNonNegative(av, w);
    AppendDepth(av, w, |av| + 1);
    forall k | 0 <= k < |av + [w]| && Depth(av + [w], k) == 0 ensures IsTopWord((av + [w])[k]) {
      TopWordAt(av, w, k);
    }
  }

  lemma TopWordAt(av: seq<string>, w: string, k: nat)
    requires TopWords(av) && (Depth(av, |av|) == 0 ==> IsTopWord(w)) && k <= |av| && Depth(av + [w], k) == 0
    ensures IsTopWord((av + [w])[k])
  {
    AppendDepth(av, w, k);
    if k < |av| { assert Depth(av, k) == 0 && (av + [w])[k] == av[k]; }
  }

  // What has been gathered in front of word i, as long as no error was raised.
  ghost predicate Gathered(seg: seq<string>, st: Fill, specp: bool, flags: Flags) {
    && st.i <= |seg|
    && (st.err.None? ==>
          && st.l == Depth(seg, st.i) >= 0
          && RedirsFit(st.redirs, flags)
          && (st.l == 0 && st.i > 0 && Depth(seg, st.i - 1) == 0 ==> First(seg[st.i - 1]) != '>')
          && TopWords(st.av)
          && (specp ==> Depth(st.av, |st.av|) == st.l)
          && (!specp ==> forall k :: 0 <= k < |st.av| ==> !IsParen(st.av[k])))
  }

  // Saving one more word.
  lemma SaveGathered(seg: seq<string>, st: Fill, r: Fill, specp: bool, flags: Flags)
    requires NonNegative(seg) && Gathered(seg, st, specp, flags) && st.i < |seg| && st.err.None?
    requires r.i == st.i + 1 && r.err.None? && r.redirs == st.redirs && r.av == st.av + [seg[st.i]]
    requires r.l == Depth(seg, st.i + 1) && (specp || !IsParen(seg[st.i]))
    requires st.l == 0 ==> IsTopWord(seg[st.i])
    requires !specp ==> st.l == 0
    ensures Gathered(seg, r, specp, flags)
  {
    var w := seg[st.i];
    assert Depth(seg, st.i + 1) == Depth(seg, st.i) + Delta(w);
    if !specp { NoParens(st.av, |st.av|); }
    assert Depth(seg, st.i + 1) >= 0;
    AppendTopWord(st.av, w);
  }

  // At a round's start with no parenthesis open, an & would have been a hit.
  lemma BoundaryWord(seg: seq<string>, st: Fill, specp: bool, flags: Flags)
    requires QuietBelow(seg, 5) && NonNegative(seg)
    requires Gathered(seg, st, specp, flags) && st.i < |seg| && st.err.None? && st.l == 0
    requires First(seg[st.i]) != '<' && First(seg[st.i]) != '>'
    ensures IsTopWord(seg[st.i])
  {
    var i := st.i;
    assert !TopHit(Semi, seg, i) && !TopHit(Bar, seg, i) && !TopHit(AndAnd, seg, i) && !TopHit(Amp, seg, i);
    if i > 0 && !IsParen(seg[i - 1]) {
      assert Depth(seg, i) == Depth(seg, i - 1);
      assert !TopHit(Bar, seg, i - 1);
    }
  }

  // The name a redirection takes.
  lemma NameFits(seg: seq<string>, i: nat)
    requires QuietBelow(seg, 5) && i < |seg| && Depth(seg, i) == 0 && !IsRelpar(seg[i])
    requires seg[i] == "&" ==> i > 0 && !Skipper(seg[i - 1])
    ensures IsName(seg[i])
  {
    assert !TopHit(Semi, seg, i) && !TopHit(Bar, seg, i) && !TopHit(AndAnd, seg, i) && !TopHit(Amp, seg, i);
  }

  lemma InputGathered(seg: seq<string>, st: Fill, specp: bool, flags: Flags)
    requires QuietBelow(seg, 5) && NonNegative(seg)
    requires Gathered(seg, st, specp, flags) && st.i < |seg| && st.l == 0 && First(seg[st.i]) == '<'
    ensures Gathered(seg, InputRedir(seg, st, flags), specp, flags)
  {
    var r := InputRedir(seg, st, flags);
    if r.err.None? {
      assert Depth(seg, st.i + 1) == 0;
      NameFits(seg, st.i + 1);
      assert Depth(seg, st.i + 2) == 0;
    }
  }

  lemma OutputGathered(seg: seq<string>, st: Fill, specp: bool, flags: Flags)
    requires QuietBelow(seg, 5) && NonNegative(seg)
    requires Gathered(seg, st, specp, flags) && st.i < |seg| && st.l == 0 && First(seg[st.i]) == '>'
    ensures Gathered(seg, OutputRedir(seg, st, flags), specp, flags)
  {
    var r := OutputRedir(seg, st, flags);
    if r.err.None? {
      var i := st.i;
      assert Depth(seg, i + 1) == 0;
      assert forall j :: i + 1 <= j < r.i ==> !IsRelpar(seg[j]);
      PlainDepth(seg, i + 1, r.i);
      NameFits(seg, r.i - 1);
    }
  }

  lemma {:induction false} PlainDepth(seg: seq<string>, i: nat, j: nat)
    requires i <= j <= |seg| && forall k :: i <= k < j ==> !IsRelpar(seg[k])
    ensures forall k :: i <= k <= j ==> Depth(seg, k) == Depth(seg, i)
  {
    if i < j { PlainDepth(seg, i, j - 1); }
  }

  lemma StepGathered(seg: seq<string>, st: Fill, specp: bool, flags: Flags)
    requires QuietBelow(seg, 5) && NonNegative(seg)
    requires Gathered(seg, st, specp, flags) && st.i < |seg|
    ensures Gathered(seg, FillStep(seg, st, specp, flags), specp, flags)
  {
    var c := First(seg[st.i]);
    var r := FillStep(seg, st, specp, flags);
    if st.l == 0 && c == '>' {
      OutputGathered(seg, st, specp, flags);
    } else if st.l == 0 && c == '<' {
      InputGathered(seg, st, specp, flags);
    } else if r.err.None? {
      assert Depth(seg, st.i + 1) >= 0;
      if st.l == 0 { BoundaryWord(seg, st, specp, flags); }
      if r.av != st.av { SaveGathered(seg, st, r, specp, flags); }
    }
  }

  lemma {:induction false} FillGathered(seg: seq<string>, st: Fill, specp: bool, flags: Flags)
    requires QuietBelow(seg, 5) && NonNegative(seg) && Gathered(seg, st, specp, flags)
    ensures Gathered(seg, FillFrom(seg, st, specp, flags), specp, flags)
    decreases |seg| - st.i
  {
    if st.i < |seg| {
      StepGathered(seg, st, specp, flags);
      FillGathered(seg, FillStep(seg, st, specp, flags), specp, flags);
    }
  }

  // The keyword that makes a command special, and the else's in front of it, come first
  // among the saved words.
  function KeyWords(seg: seq<string>): (n: nat)
    requires IsSpecial(seg)
    ensures 1 <= n <= |seg|
  {
    if Keyword(seg[0]) == Some(T_ELSE) then 1 + KeyWords(seg[1..]) else 1
  }

  lemma {:induction false} KeyWordsDecide(seg: seq<string>, w: seq<string>)
    requires IsSpecial(seg) && KeyWords(seg) <= |w| && w[..KeyWords(seg)] == seg[..KeyWords(seg)]
    ensures IsSpecial(w)
  {
    assert w[0] == w[..KeyWords(seg)][0] == seg[0];
    if Keyword(seg[0]) == Some(T_ELSE) {
      var n := KeyWords(seg[1..]);
      assert w[1..][..n] == w[..n + 1][1..] == seg[..n + 1][1..] == seg[1..][..n];
      KeyWordsDecide(seg[1..], w[1..]);
    }
  }

  lemma {:induction false} KeyWordsPlain(seg: seq<string>, j: nat)
    requires IsSpecial(seg) && j < KeyWords(seg)
    ensures Keyword(seg[j]).Some?
  {
    if j > 0 { KeyWordsPlain(seg[1..], j - 1); }
  }

  lemma KeywordStart(w: string)
    requires Keyword(w).Some?
    ensures !IsRelpar(w)
  {
    var all := ["@", "break", "breaksw", "case", "default", "else", "end", "endif", "endsw", "exit", "foreach",
                "goto", "if", "label", "set", "switch", "while"];
    assert forall t :: t in all ==> !IsRelpar(t);
  }

  // The leading words with a keyword have been saved, as far as they have been read.
  predicate KeySaved(seg: seq<string>, st: Fill)
    requires IsSpecial(seg)
  {
    var n := KeyWords(seg);
    st.i <= |seg|
    && if st.i <= n then st.l == 0 && st.av == seg[..st.i] else n <= |st.av| && st.av[..n] == seg[..n]
  }

  lemma KeySavedStep(seg: seq<string>, st: Fill, flags: Flags)
    requires IsSpecial(seg) && KeySaved(seg, st) && st.i < |seg|
    ensures KeySaved(seg, FillStep(seg, st, true, flags))
  {
    if st.i < KeyWords(seg) { KeyWordStep(seg, st, flags); } else { BehindKeyWords(seg, st, flags); }
  }

  lemma KeyWordStep(seg: seq<string>, st: Fill, flags: Flags)
    requires IsSpecial(seg) && st.i < KeyWords(seg) <= |seg| && st.l == 0 && st.av == seg[..st.i]
    ensures var r := FillStep(seg, st, true, flags); r.i == st.i + 1 && r.l == 0 && r.av == seg[..r.i]
  {
    KeyWordsPlain(seg, st.i);
    KeywordStart(seg[st.i]);
  }

  lemma BehindKeyWords(seg: seq<string>, st: Fill, flags: Flags)
    requires st.i < |seg|
    ensures var r := FillStep(seg, st, true, flags); st.i < r.i <= |seg| && st.av <= r.av
  {
  }

  lemma {:induction false} KeyWordsSaved(seg: seq<string>, st: Fill, flags: Flags)
    requires IsSpecial(seg) && KeySaved(seg, st)
    ensures var r := FillFrom(seg, st, true, flags);
            KeyWords(seg) <= |r.av| && r.av[..KeyWords(seg)] == seg[..KeyWords(seg)]
    decreases |seg| - st.i
  {
    if st.i < |seg| {
      KeySavedStep(seg, st, flags);
      KeyWordsSaved(seg, FillStep(seg, st, true, flags), flags);
    }
  }

  lemma CommandFits(seg: seq<string>, flags: Flags)
    requires QuietBelow(seg, 5) && Balanced(seg)
    requires var st := FillFrom(seg, FillStart, IsSpecial(seg), flags); st.err.None?
    ensures var st := FillFrom(seg, FillStart, IsSpecial(seg), flags);
            RedirsFit(st.redirs, flags) && WordsFit(st.av)
  {
    var specp := IsSpecial(seg);
    var st := FillFrom(seg, FillStart, specp, flags);
    FillGathered(seg, FillStart, specp, flags);
    if specp {
      assert seg[..0] == [];
      KeyWordsSaved(seg, FillStart, flags);
      KeyWordsDecide(seg, st.av);
    } else {
      NoParens(st.av, |st.av|);
    }
  }

  // ----- the descent -----

  lemma ForegroundFits(t: Cmd, flags: Flags)
    requires Fits(t, 0, flags) && Foreground(t)
    ensures Fits(t, 1, flags)
  {
  }

  // What a tree in ( ) may contain, it may contain outside; levels 0 to 3 know no pipe flags.
  lemma {:induction false} FitsOutside(t: Cmd, k: nat, flags: Flags)
    requires Fits(t, k, flags.(here := true))
    ensures Fits(t, k, flags)
    decreases t, 6 - k
  {
    if k == 0 && t.List? && t.car.Some? && IsAmp(t.car.value) {
      var a := t.car.value;
      if IsBare(a) { FitsOutside(a.sub, 1, flags); } else { FitsOutside(a, 4, flags); }
      if t.cdr.Some? { FitsOutside(t.cdr.value, 0, flags); }
    } else if k == 1 && t.List? {
      if t.car.None? { FitsOutside(t.cdr.value, 2, flags); }
      else { FitsOutside(t.car.value, 2, flags); FitsOutside(t.cdr.value, 1, flags); }
    } else if (k == 2 && t.Or?) || (k == 3 && t.And?) {
      FitsOutside(t.l, k + 1, flags);
      FitsOutside(t.r, k, flags);
    } else if k == 4 && t.Pipe? {
      var lf, rf := flags.(pout := true, perr := flags.perr || t.stderr), flags.(pin := true);
      assert lf.(here := true) == flags.(here := true).(pout := true, perr := flags.perr || t.stderr);
      assert rf.(here := true) == flags.(here := true).(pin := true);
      FitsOutside(t.l, 5, lf);
      FitsOutside(t.r, 4, rf);
    } else if k < 5 {
      FitsOutside(t, k + 1, flags);
    }
  }

  predicate NoPipe(flags: Flags) {
    !flags.pin && !flags.pout && !flags.perr
  }

  lemma BackgroundFits(t: Cmd, flags: Flags)
    requires Fits(t, 1, flags) && !IsAmp(t) && NoPipe(flags) && Foreground(t)
    ensures FitsBack(Background(t), flags)
  {
    var a := Background(t);
    assert !t.List? ==> Fits(t, 2, flags);
    assert !t.List? && !t.Or? ==> Fits(t, 3, flags);
    assert !t.List? && !t.Or? && !t.And? ==> Fits(t, 4, flags);
    assert t.Paren? || t.Command? ==> Fits(t, 5, flags) && Fits(a, 5, flags) && Fits(a, 4, flags);
    if t.Paren? && IsBare(a) {
      ForegroundFits(t.sub, Here);
      FitsOutside(t.sub, 1, Flags(false, false, false, false));
      if flags.here { assert flags == Here; } else { assert flags == Flags(false, false, false, false); }
    }
  }

  // Segments without & at the outermost level give foreground trees.
  lemma {:induction false} FitsForeground(t: Cmd, flags: Flags)
    requires Fits(t, 1, flags)
    ensures Foreground(t)
    decreases t
  {
    if t.List? {
      FitsForeground(t.cdr.value, flags) by {
        if t.car.None? { LevelsNest(t.cdr.value, flags); }
      }
    }
  }

  // No level fits an operator of a lower one.
  lemma LeafFits(t: Cmd, flags: Flags)
    ensures t.List? || t.Or? || t.And? ==> !Fits(t, 4, flags)
    ensures t.List? || t.Or? ==> !Fits(t, 3, flags)
    ensures t.List? ==> !Fits(t, 2, flags)
  {
    assert t.List? || t.Or? || t.And? ==> !Fits(t, 5, flags);
  }

  lemma LevelsNest(t: Cmd, flags: Flags)
    requires Fits(t, 2, flags)
    ensures Fits(t, 1, flags)
  {
    LeafFits(t, flags);
  }

  lemma {:induction false} SyntaxFits(seg: seq<string>, stop: char, flags: Flags)
    requires NonNegative(seg) && NoPipe(flags)
    requires Syntax(seg, stop, flags).err.None? && Syntax(seg, stop, flags).cmd.Some?
    ensures var t := Syntax(seg, stop, flags).cmd.value;
            Fits(t, 0, flags) && !IsAmp(t) && (Quiet(Amp, seg) ==> Fits(t, 1, flags))
    decreases |SkipSeps(seg)|, 8
  {
    SkipSepsCut(seg);
    if Quiet(Amp, seg) { SkipSepsQuiet(seg, 1); }
    Syn0Fits(SkipSeps(seg), stop, flags);
  }

  lemma {:induction false} Syn0Fits(seg: seq<string>, stop: char, flags: Flags)
    requires NonNegative(seg) && NoPipe(flags) && Syn0(seg, stop, flags).err.None?
    ensures var r := Syn0(seg, stop, flags);
            r.cmd.Some? && Fits(r.cmd.value, 0, flags) && !IsAmp(r.cmd.value)
            && (Quiet(Amp, seg) ==> Fits(r.cmd.value, 1, flags))
    decreases |seg|, 7
  {
    var t := Syn0(seg, stop, flags).cmd.value;
    match FindTop(Amp, seg, 0)
    case Some(k) =>
      Cut(seg, k);
      LeftQuiet(seg, 0, k);
      Syn1Fits(seg[..k], '&', flags);
      var left := Syn1(seg[..k], '&', flags).cmd;
      FitsForeground(left, flags);
      BackgroundFits(left, flags);
      assert IsSep(seg[k..][0]);
      if Syntax(seg[k..], stop, flags).cmd.Some? { SyntaxFits(seg[k..], stop, flags); }
    case None =>
      Syn1Fits(seg, stop, flags);
      Level1IsLevel0(t, flags);
  }

  lemma Level1IsLevel0(t: Cmd, flags: Flags)
    requires Fits(t, 1, flags)
    ensures Fits(t, 0, flags)
  {
  }

  lemma {:induction false} Syn1Fits(seg: seq<string>, stop: char, flags: Flags)
    requires Balanced(seg) && NoPipe(flags) && QuietBelow(seg, 1) && Syn1(seg, stop, flags).err.None?
    ensures var t := Syn1(seg, stop, flags).cmd; Fits(t, 1, flags) && !IsAmp(t)
    decreases |seg|, 6
  {
    match FindTop(Semi, seg, 0)
    case Some(k) =>
      SplitBalanced(Semi, seg, k);
      SemiSplit(seg, k, stop, flags);
      SemiFits(seg, k, stop, flags);
    case None =>
      Syn1aFits(seg, stop, flags);
      LevelsNest(Syn1a(seg, stop, flags).cmd, flags);
  }

  function Listed(left: Cmd, right: Option<Cmd>): Cmd {
    if right.None? then List(None, Some(left)) else List(Some(left), right)
  }

  lemma {:induction false} SemiFits(seg: seq<string>, k: nat, stop: char, flags: Flags)
    requires NoPipe(flags) && QuietBelow(seg, 1) && FindTop(Semi, seg, 0) == Some(k)
    requires Balanced(seg[..k]) && Balanced(seg[k + 1..])
    requires Syn1a(seg[..k], First(seg[k]), flags).err.None? && Syntax(seg[k + 1..], stop, flags).err.None?
    ensures var t := Listed(Syn1a(seg[..k], First(seg[k]), flags).cmd, Syntax(seg[k + 1..], stop, flags).cmd);
            Fits(t, 1, flags) && !IsAmp(t)
    decreases |seg|, 5, 2
  {
    SemiLeft(seg, k, flags);
    if Syntax(seg[k + 1..], stop, flags).cmd.Some? { SemiRight(seg, k, stop, flags); }
    ListFits(Syn1a(seg[..k], First(seg[k]), flags).cmd, Syntax(seg[k + 1..], stop, flags).cmd, flags);
  }

  lemma {:induction false} SemiLeft(seg: seq<string>, k: nat, flags: Flags)
    requires NoPipe(flags) && QuietBelow(seg, 1) && FindTop(Semi, seg, 0) == Some(k) && Balanced(seg[..k])
    requires Syn1a(seg[..k], First(seg[k]), flags).err.None?
    ensures var left := Syn1a(seg[..k], First(seg[k]), flags).cmd; Fits(left, 2, flags) && !IsAmp(left)
    decreases |seg|, 5, 1
  {
    LeftQuiet(seg, 1, k);
    Syn1aFits(seg[..k], First(seg[k]), flags);
  }

  lemma {:induction false} SemiRight(seg: seq<string>, k: nat, stop: char, flags: Flags)
    requires NoPipe(flags) && QuietBelow(seg, 1) && TopHit(Semi, seg, k) && Balanced(seg[k + 1..])
    requires Syntax(seg[k + 1..], stop, flags).err.None? && Syntax(seg[k + 1..], stop, flags).cmd.Some?
    ensures var right := Syntax(seg[k + 1..], stop, flags).cmd.value; Fits(right, 1, flags) && !IsAmp(right)
    decreases |seg|, 5, 1
  {
    HitDepth(Semi, seg, k);
    RightQuiet(seg, 1, k + 1);
    SyntaxFits(seg[k + 1..], stop, flags);
  }

  lemma SplitBalanced(kind: Kind, seg: seq<string>, k: nat)
    requires Balanced(seg) && TopHit(kind, seg, k)
    ensures Balanced(seg[..k]) && Balanced(seg[k + 1..])
  {
    Cut(seg, k);
    HitDepth(kind, seg, k);
    Cut(seg, k + 1);
  }

  lemma SemiSplit(seg: seq<string>, k: nat, stop: char, flags: Flags)
    requires Balanced(seg) && FindTop(Semi, seg, 0) == Some(k)
    requires Balanced(seg[..k]) && Balanced(seg[k + 1..])
    ensures var left, right := Syn1a(seg[..k], First(seg[k]), flags), Syntax(seg[k + 1..], stop, flags);
            Syn1(seg, stop, flags)
            == Parsed(Listed(left.cmd, right.cmd), Earliest(left.err, right.err))
  {
  }

  lemma ListFits(l: Cmd, r: Option<Cmd>, flags: Flags)
    requires Fits(l, 2, flags) && !IsAmp(l)
    requires r.Some? ==> Fits(r.value, 1, flags) && !IsAmp(r.value)
    ensures Fits(Listed(l, r), 1, flags) && !IsAmp(Listed(l, r))
  {
  }

  lemma {:induction false} Syn1aFits(seg: seq<string>, stop: char, flags: Flags)
    requires Balanced(seg) && NoPipe(flags) && QuietBelow(seg, 2) && Syn1a(seg, stop, flags).err.None?
    ensures var t := Syn1a(seg, stop, flags).cmd; Fits(t, 2, flags) && !IsAmp(t)
    decreases |seg|, 5
  {
    match FindTop(OrOr, seg, 0)
    case Some(k) =>
      Cut(seg, k);
      HitDepth(OrOr, seg, k);
      Cut(seg, k + 1);
      LeftQuiet(seg, 2, k);
      RightQuiet(seg, 2, k + 1);
      Syn1bFits(seg[..k], '|', flags);
      Syn1aFits(seg[k + 1..], stop, flags);
    case None =>
      Syn1bFits(seg, stop, flags);
      NotAt(Syn1b(seg, stop, flags).cmd, 3, flags);
  }

  // A tree of a higher level has not the operator of a lower one.
  lemma NotAt(t: Cmd, k: nat, flags: Flags)
    requires 3 <= k <= 5 && Fits(t, k, flags)
    ensures Fits(t, k - 1, flags)
  {
    LeafFits(t, flags);
  }

  lemma {:induction false} Syn1bFits(seg: seq<string>, stop: char, flags: Flags)
    requires Balanced(seg) && NoPipe(flags) && QuietBelow(seg, 3) && Syn1b(seg, stop, flags).err.None?
    ensures var t := Syn1b(seg, stop, flags).cmd; Fits(t, 3, flags) && !IsAmp(t)
    decreases |seg|, 4
  {
    match FindTop(AndAnd, seg, 0)
    case Some(k) =>
      Cut(seg, k);
      HitDepth(AndAnd, seg, k);
      Cut(seg, k + 1);
      LeftQuiet(seg, 3, k);
      RightQuiet(seg, 3, k + 1);
      Syn2Fits(seg[..k], '&', flags);
      Syn1bFits(seg[k + 1..], stop, flags);
    case None =>
      Syn2Fits(seg, stop, flags);
      NotAt(Syn2(seg, stop, flags).cmd, 4, flags);
  }

  lemma {:induction false} Syn2Fits(seg: seq<string>, stop: char, flags: Flags)
    requires Balanced(seg) && QuietBelow(seg, 4) && Syn2(seg, stop, flags).err.None?
    ensures var t := Syn2(seg, stop, flags).cmd; Fits(t, 4, flags) && !IsAmp(t)
    decreases |seg|, 3
  {
    match FindTop(Bar, seg, 0)
    case Some(k) =>
      BarCut(seg, k);
      var m := BehindBar(seg, k);
      LeftQuiet(seg, 4, k);
      HitDepth(Bar, seg, k);
      assert Depth(seg, m) == 0;
      BehindBarQuiet(seg, k);
      Syn3Fits(seg[..k], '|', flags.(pout := true, perr := flags.perr || m == k + 2));
      Syn2Fits(seg[m..], stop, flags.(pin := true));
    case None =>
      Syn3Fits(seg, stop, flags);
      NotAt(Syn3(seg, stop, flags).cmd, 5, flags);
  }

  // Behind a bar only a single & is taken for part of the bar.
  lemma BehindBarQuiet(seg: seq<string>, k: nat)
    requires QuietBelow(seg, 4) && TopHit(Bar, seg, k)
    ensures QuietBelow(seg[BehindBar(seg, k)..], 4)
  {
    var m := BehindBar(seg, k);
    HitDepth(Bar, seg, k);
    if m == k + 2 {
      assert Depth(seg, k + 2) == 0;
      assert !TopHit(Amp, seg, k + 1) && !TopHit(AndAnd, seg, k + 1);
      assert seg[k + 1] == "&" && !Skipper("&");
    }
    RightQuiet(seg, 4, m);
  }

  lemma {:induction false} Syn3Fits(seg: seq<string>, stop: char, flags: Flags)
    requires Balanced(seg) && QuietBelow(seg, 5) && Syn3(seg, stop, flags).err.None?
    ensures var t := Syn3(seg, stop, flags).cmd; Fits(t, 5, flags) && !IsAmp(t)
    decreases |seg|, 2
  {
    var specp := IsSpecial(seg);
    var st := FillFrom(seg, FillStart, specp, flags);
    PairBalanced(seg, specp, flags);
    FillFromSound(seg, FillStart, specp, flags);
    CommandFits(seg, flags);
    if st.lp.Some? && !specp {
      Syn0Fits(seg[st.lp.value..st.rp.value], ')', Here);
    }
  }

  // ----- the theorem -----

  // For every word list that parses without an error: printing its tree and parsing that
  // gives the same tree, the F_NOFORK hints apart.
  lemma RoundTrip(ws: seq<string>, stop: char, here: bool)
    requires NonNegative(ws)
    requires var r := Syntax(ws, stop, Flags(here, false, false, false)); r.err.None? && r.cmd.Some?
    ensures var flags := Flags(here, false, false, false);
            var t := Syntax(ws, stop, flags).cmd.value;
            && Balanced(Show(t))
            && var r := Syntax(Show(t), stop, flags);
               r.err.None? && r.cmd.Some? && Erase(r.cmd.value) == Erase(t)
  {
    var flags := Flags(here, false, false, false);
    var t := Syntax(ws, stop, flags).cmd.value;
    SyntaxFits(ws, stop, flags);
    ShowParsed(t, 0, stop, flags);
    ShowSolid(t, 0, flags);
    UnampNothing(t);
  }
}

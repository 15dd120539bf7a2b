// The two passes of syn3 over a segment (bin/csh/parse.c): one counts the argument
// slots, the other fills them. The passes disagree about what they skip, and yet the
// second never leaves the vector the first has sized.
module ParserScan {
  import opened Shared
  import opened Keywords
  import opened Parser

  // What word k adds to the count.
  function Counts(seg: seq<string>, k: nat, specp: bool): int
    requires k < |seg|
  {
    var c := First(seg[k]);
    if c == '(' || c == ')' then if specp then 1 else 0
    else if c == '>' || c == '<' then
      if Depth(seg, k) != 0 then if specp then 1 else 0
      else if k + 1 == |seg| || IsRelpar(seg[k + 1]) then 0
      else -1
    else if !specp && Depth(seg, k) != 0 then 0
    else 1
  }

  // The count in front of word k.
  function Counted(seg: seq<string>, k: nat, specp: bool): int
    requires k <= |seg|
  {
    if k == 0 then 0 else Counted(seg, k - 1, specp) + Counts(seg, k - 1, specp)
  }

  // The lines that size the vector.
  method CountWords(seg: seq<string>, specp: bool) returns (n: nat)
    ensures n >= Counted(seg, |seg|, specp)
    ensures n == 0 || n == Counted(seg, |seg|, specp)
  {
    var m, l, p := 0, 0, 0;
    while p < |seg|
      invariant 0 <= p <= |seg| && l == Depth(seg, p) && m == Counted(seg, p, specp)
    {
      var c := First(seg[p]);
      if c == '(' {
        if specp { m := m + 1; }
        l := l + 1;
      } else if c == ')' {
        if specp { m := m + 1; }
        l := l - 1;
      } else if c == '>' || c == '<' {
        if l != 0 {
          if specp { m := m + 1; }
        } else if p + 1 < |seg| && !IsRelpar(seg[p + 1]) {
          m := m - 1;
        }
      } else if specp || l == 0 {
        m := m + 1;
      }
      p := p + 1;
    }
    n := if m < 0 then 0 else m;
  }

  // Word k is the name of a redirection whose sign has been counted already.
  predicate Pending(seg: seq<string>, k: nat) {
    0 < k < |seg| && Depth(seg, k - 1) == 0 && First(seg[k - 1]) in "<>" && !IsRelpar(seg[k])
  }

  lemma {:induction false} CountGrows(seg: seq<string>, k: nat, specp: bool)
    requires k <= |seg|
    ensures Counted(seg, |seg|, specp) >= Counted(seg, k, specp) + if Pending(seg, k) then 1 else 0
    decreases |seg| - k
  {
    if k < |seg| {
      CountGrows(seg, k + 1, specp);
      assert Counted(seg, k + 1, specp) == Counted(seg, k, specp) + Counts(seg, k, specp);
      if Pending(seg, k) { assert Depth(seg, k) == 0; }
    }
  }

  // As long as no error was raised, the filling pass has seen the same depth and has
  // saved no more words than were counted.
  predicate InStep(seg: seq<string>, st: Fill, specp: bool) {
    st.i <= |seg| && (st.err.None? ==> st.l == Depth(seg, st.i) && |st.av| <= Counted(seg, st.i, specp))
  }

  lemma OutputInStep(seg: seq<string>, st: Fill, specp: bool, flags: Flags)
    requires st.i < |seg| && InStep(seg, st, specp) && First(seg[st.i]) == '>' && st.l == 0
    ensures InStep(seg, OutputRedir(seg, st, flags), specp)
  {
    var r := OutputRedir(seg, st, flags);
    if r.err.None? {
      var i := st.i;
      assert Counts(seg, i, specp) >= -1;
      assert Depth(seg, i + 1) == 0 && Counted(seg, i + 1, specp) == Counted(seg, i, specp) + Counts(seg, i, specp);
      assert seg[i + 1] == "&" || seg[i + 1] == "!" || r.i == i + 2;
      WordCounts(seg, i + 1, specp);
      if r.i > i + 2 { WordCounts(seg, i + 2, specp); }
      if r.i > i + 3 { WordCounts(seg, i + 3, specp); }
    }
  }

  lemma WordCounts(seg: seq<string>, k: nat, specp: bool)
    requires k < |seg| && Depth(seg, k) == 0 && !IsRelpar(seg[k])
    ensures Depth(seg, k + 1) == 0 && Counted(seg, k + 1, specp) == Counted(seg, k, specp) + 1
  {
  }

  lemma InputInStep(seg: seq<string>, st: Fill, specp: bool, flags: Flags)
    requires st.i < |seg| && InStep(seg, st, specp) && First(seg[st.i]) == '<' && st.l == 0
    ensures InStep(seg, InputRedir(seg, st, flags), specp)
  {
    var r := InputRedir(seg, st, flags);
    if r.err.None? {
      assert Depth(seg, st.i + 1) == 0;
      assert Counted(seg, st.i + 1, specp) == Counted(seg, st.i, specp) + Counts(seg, st.i, specp);
      WordCounts(seg, st.i + 1, specp);
    }
  }

  lemma StepInStep(seg: seq<string>, st: Fill, specp: bool, flags: Flags)
    requires st.i < |seg| && InStep(seg, st, specp)
    ensures InStep(seg, FillStep(seg, st, specp, flags), specp)
  {
    var c := First(seg[st.i]);
    if st.l == 0 && c == '>' {
      OutputInStep(seg, st, specp, flags);
    } else if st.l == 0 && c == '<' {
      InputInStep(seg, st, specp, flags);
    } else {
      assert Counted(seg, st.i + 1, specp) == Counted(seg, st.i, specp) + Counts(seg, st.i, specp);
    }
  }

  // A word that is saved without an error has a slot.
  lemma SlotIsFree(seg: seq<string>, st: Fill, specp: bool, flags: Flags)
    requires st.i < |seg| && InStep(seg, st, specp) && st.err.None?
    requires var r := FillStep(seg, st, specp, flags); r.err.None? && |r.av| > |st.av|
    ensures |st.av| < Counted(seg, |seg|, specp)
  {
    StepInStep(seg, st, specp, flags);
    CountGrows(seg, FillStep(seg, st, specp, flags).i, specp);
  }

  lemma RunGoesOn(seg: seq<string>, st: Fill, specp: bool, flags: Flags, next: Fill)
    requires st.i < |seg| && InStep(seg, st, specp) && next == FillStep(seg, st, specp, flags)
    ensures st.i < next.i <= |seg| && InStep(seg, next, specp)
    ensures FillFrom(seg, next, specp, flags) == FillFrom(seg, st, specp, flags)
    ensures next.err.None? ==> st.err.None?
    ensures next.err.None? && |next.av| > |st.av| ==> |st.av| < Counted(seg, |seg|, specp)
  {
    StepInStep(seg, st, specp, flags);
    ErrorStays(seg, st, specp, flags);
    if next.err.None? && |next.av| > |st.av| { SlotIsFree(seg, st, specp, flags); }
  }

  lemma ErrorStays(seg: seq<string>, st: Fill, specp: bool, flags: Flags)
    requires st.i < |seg|
    ensures FillStep(seg, st, specp, flags).err.None? ==> st.err.None?
  {
  }

  // What the vector holds after the filling: the saved words, the other slots NULL.
  predicate Holds(av: seq<Option<string>>, words: seq<string>) {
    |words| < |av|
    && (forall k :: 0 <= k < |words| ==> av[k] == Some(words[k]))
    && (forall k :: |words| <= k < |av| ==> av[k] == None)
  }

  // > and what follows it, p at the > and p' at the last word taken.
  method TakeOutput(seg: seq<string>, p: nat, redirs: Redirs, flags: Flags, seterr: Option<Error>, ghost st: Fill)
      returns (p': nat, redirs': Redirs, err: Option<Error>)
    requires p < |seg| && st.i == p && st.redirs == redirs && st.err == seterr
    ensures OutputRedir(seg, st, flags) == st.(i := p' + 1, redirs := redirs', err := err)
  {
    p', redirs', err := p, redirs, seterr;
    if Second(seg[p']) == '>' {
      redirs' := redirs'.(append := true);
    }
    if p' + 1 < |seg| && seg[p' + 1] == "&" {
      redirs' := redirs'.(stderr := true);
      p' := p' + 1;
      if flags.pout || flags.perr {
        err := Earliest(err, Some(OutRed));
        return;
      }
    }
    if p' + 1 < |seg| && seg[p' + 1] == "!" {
      redirs' := redirs'.(overwrite := true);
      p' := p' + 1;
    }
    p', redirs', err := TakeOutputName(seg, p', redirs', flags, err, st.(i := p' + 1, redirs := redirs'));
  }

  // The name behind a > and its signs, which end at p.
  method TakeOutputName(seg: seq<string>, p: nat, redirs: Redirs, flags: Flags, seterr: Option<Error>, ghost st: Fill)
      returns (p': nat, redirs': Redirs, err: Option<Error>)
    requires p < |seg| && st.i == p + 1 && st.redirs == redirs && st.err == seterr
    ensures OutputName(seg, st, flags) == st.(i := p' + 1, redirs := redirs', err := err)
  {
    p', redirs', err := p, redirs, seterr;
    if p' + 1 == |seg| {
      err := Earliest(err, Some(MisRed));
      return;
    }
    p' := p' + 1;
    if IsRelpar(seg[p']) {
      err := Earliest(err, Some(MisRed));
    } else if flags.pout && (!flags.perr || redirs'.output.Some?) {
      err := Earliest(err, Some(OutRed));
    } else {
      redirs' := redirs'.(output := Some(seg[p']));
    }
  }

  // < and what follows it.
  method TakeInput(seg: seq<string>, p: nat, redirs: Redirs, flags: Flags, seterr: Option<Error>, ghost st: Fill)
      returns (p': nat, redirs': Redirs, err: Option<Error>)
    requires p < |seg| && st.i == p && st.redirs == redirs && st.err == seterr
    ensures InputRedir(seg, st, flags) == st.(i := p' + 1, redirs := redirs', err := err)
  {
    p', redirs', err := p, redirs, seterr;
    if Second(seg[p']) == '<' {
      redirs' := redirs'.(read := true);
    }
    if p' + 1 == |seg| {
      err := Earliest(err, Some(MisRed));
      return;
    }
    p' := p' + 1;
    if IsRelpar(seg[p']) {
      err := Earliest(err, Some(MisRed));
    } else if flags.here && redirs'.read {
      err := Earliest(err, Some(RedPar));
    } else if flags.pin || redirs'.input.Some? {
      err := Earliest(err, Some(InRed));
    } else {
      redirs' := redirs'.(input := Some(seg[p']));
    }
  }

  // Save a word in slot n, unless an error was raised.
  method Save(av: array<Option<string>>, n: nat, word: string, err: Option<Error>, ghost words: seq<string>)
    requires n == |words| && (err.None? ==> Holds(av[..], words) && n + 1 < av.Length)
    modifies av
    ensures err.None? ==> Holds(av[..], words + [word])
    ensures err.Some? ==> av[..] == old(av[..])
  {
    if err.None? {
      av[n] := Some(word);
    }
  }

  // The switch of the filling loop on word p: what is gathered, and whether to save the word.
  method Sort(seg: seq<string>, specp: bool, flags: Flags, p: nat, l: int, lp: Option<nat>, rp: Option<nat>,
              redirs: Redirs, seterr: Option<Error>, ghost st: Fill)
      returns (p': nat, l': int, lp': Option<nat>, rp': Option<nat>, redirs': Redirs, err: Option<Error>, save: bool)
    requires p < |seg| && st == Fill(p, l, st.av, lp, rp, redirs, seterr)
    ensures FillStep(seg, st, specp, flags)
            == Fill(p' + 1, l', if save then st.av + [seg[p]] else st.av, lp', rp', redirs', err)
  {
    p', l', lp', rp', redirs', err, save := p, l, lp, rp, redirs, seterr, false;
    var c := First(seg[p]);
    if c == '(' {
      if l == 0 {
        if lp.Some? && !specp { err := Earliest(err, Some(BadPLP)); }
        lp' := Some(p + 1);
      }
      l' := l + 1;
      save := specp;
    } else if c == ')' {
      l' := l - 1;
      if l' == 0 { rp' := Some(p); }
      save := specp;
    } else if c == '>' && l == 0 {
      p', redirs', err := TakeOutput(seg, p, redirs, flags, seterr, st);
    } else if c == '<' && l == 0 {
      p', redirs', err := TakeInput(seg, p, redirs, flags, seterr, st);
    } else {
      save := l == 0 || specp;
    }
  }

  // The same, in terms of the whole run: the run goes on from the new state, and a word to
  // be saved has a slot.
  method Round(seg: seq<string>, specp: bool, flags: Flags, p: nat, l: int, lp: Option<nat>, rp: Option<nat>,
               redirs: Redirs, seterr: Option<Error>, ghost st: Fill)
      returns (p': nat, l': int, lp': Option<nat>, rp': Option<nat>, redirs': Redirs, err: Option<Error>, save: bool)
    requires p < |seg| && st == Fill(p, l, st.av, lp, rp, redirs, seterr) && InStep(seg, st, specp)
    ensures p < p' <= |seg|
    ensures var next := Fill(p', l', if save then st.av + [seg[p]] else st.av, lp', rp', redirs', err);
            FillFrom(seg, next, specp, flags) == FillFrom(seg, st, specp, flags) && InStep(seg, next, specp)
    ensures err.None? ==> seterr.None? && (save ==> |st.av| < Counted(seg, |seg|, specp))
  {
    p', l', lp', rp', redirs', err, save := Sort(seg, specp, flags, p, l, lp, rp, redirs, seterr, st);
    p' := p' + 1;
    RunGoesOn(seg, st, specp, flags, Fill(p', l', if save then st.av + [seg[p]] else st.av, lp', rp', redirs', err));
  }

  // syn3's loops. Every write below is in the bounds the counting pass has set, for every
  // segment, malformed or not; without an error the vector holds the saved words and is
  // NULL-terminated, with one it is NULL-terminated all the same.
  method ScanCommand(seg: seq<string>, flags: Flags, seterr: Option<Error>)
      returns (av: array<Option<string>>, n: nat, lp: Option<nat>, rp: Option<nat>, redirs: Redirs,
               err: Option<Error>, ghost st: Fill)
    ensures fresh(av)
    ensures st == FillFrom(seg, FillStart.(err := seterr), IsSpecial(seg), flags)
    ensures n == |st.av| && lp == st.lp && rp == st.rp && redirs == st.redirs && err == st.err
    ensures err.None? ==> Holds(av[..], st.av)
    ensures av.Length > 0 && av[av.Length - 1] == None
  {
    var specp := IsSpecial(seg);
    var count := CountWords(seg, specp);
    av := new Option<string>[count + 1](_ => None);
    n, lp, rp, redirs, err := 0, None, None, NoRedirs, seterr;
    var l, p := 0, 0;
    st := FillStart.(err := seterr);
    ghost var goal := FillFrom(seg, st, specp, flags);
    while p < |seg|
      invariant 0 <= p <= |seg| && fresh(av)
      invariant st == Fill(p, l, st.av, lp, rp, redirs, err) && n == |st.av|
      invariant FillFrom(seg, st, specp, flags) == goal
      invariant InStep(seg, st, specp)
      invariant err.None? ==> Holds(av[..], st.av)
      invariant av[count] == None && av.Length == count + 1
    {
      var word, save := seg[p], false;
      p, l, lp, rp, redirs, err, save := Round(seg, specp, flags, p, l, lp, rp, redirs, err, st);
      if save {
        Save(av, n, word, err, st.av);
        n := n + 1;
      }
      st := Fill(p, l, if save then st.av + [word] else st.av, lp, rp, redirs, err);
    }
  }

  // ----- the scans of syn0, syn1, syn1a, syn1b and syn2 -----

  // syn0: an & that follows a redirection or a single bar belongs to it.
  method ScanAmp(seg: seq<string>) returns (r: Option<nat>, l: int)
    ensures r == FindTop(Amp, seg, 0) && (r.None? ==> l == Depth(seg, |seg|))
  {
    l := 0;
    var p := 0;
    while p < |seg|
      invariant p <= |seg| && l == Depth(seg, p) && FindTop(Amp, seg, 0) == FindTop(Amp, seg, p)
      invariant 0 < p < |seg| && seg[p] == "&" ==> !Skipper(seg[p - 1])
    {
      var c := First(seg[p]);
      var skip := false;
      if c == '(' {
        l := l + 1;
      } else if c == ')' {
        l := l - 1;
      } else if c == '>' || (c == '|' && Second(seg[p]) != '|') {
        skip := p + 1 < |seg| && seg[p + 1] == "&";
      } else if c == '&' && l == 0 && Second(seg[p]) != '&' {
        return Some(p), l;
      }
      if skip {
        p := p + 1;
        assert !TopHit(Amp, seg, p) && Depth(seg, p + 1) == Depth(seg, p);
      }
      p := p + 1;
    }
    r := None;
  }

  // The other four differ in the operator alone.
  method ScanFor(kind: Kind, seg: seq<string>) returns (r: Option<nat>)
    requires kind != Amp
    ensures r == FindTop(kind, seg, 0)
  {
    var l, p := 0, 0;
    while p < |seg|
      invariant p <= |seg| && l == Depth(seg, p) && FindTop(kind, seg, 0) == FindTop(kind, seg, p)
    {
      var c := First(seg[p]);
      if c == '(' {
        l := l + 1;
      } else if c == ')' {
        l := l - 1;
      } else {
        var hit :=
          match kind
          case Semi => c == ';' || c == '\n'
          case OrOr => c == '|' && Second(seg[p]) == '|'
          case AndAnd => c == '&' && Second(seg[p]) == '&'
          case _ => c == '|';
        if hit && l == 0 {
          return Some(p);
        }
      }
      p := p + 1;
    }
    r := None;
  }
}

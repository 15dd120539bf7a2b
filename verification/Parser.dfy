// The command parser (bin/csh/parse.c: syntax, syn0 ... syn3). It builds a tree by
// scanning a segment of the word list for the weakest operator outside parentheses.
module Parser {
  import opened Shared
  import opened Keywords

  datatype Error =
    | TooManyLP     // Too many ('s
    | BadPLP        // Badly placed (
    | BadPLPS       // Badly placed ()'s
    | MisRed        // Missing name for redirect
    | OutRed        // Ambiguous output redirect
    | InRed         // Ambiguous input redirect
    | RedPar        // Can't << within ()'s
    | NullCom       // Invalid null command

  // t_dlef and t_drit, with F_READ, F_APPEND, F_STDERR and F_OVERWRITE.
  datatype Redirs = Redirs(
    input: Option<string>, read: bool,
    output: Option<string>, append: bool, stderr: bool, overwrite: bool)

  const NoRedirs := Redirs(None, false, None, false, false, false)

  // amp: F_AMPERSAND and F_NOINTERRUPT; nofork: F_NOFORK.
  datatype Cmd =
    | Command(av: seq<string>, redirs: Redirs, amp: bool, nofork: bool)
    | Paren(sub: Cmd, redirs: Redirs, amp: bool, nofork: bool)
    | Pipe(l: Cmd, r: Cmd, stderr: bool, amp: bool)
    | And(l: Cmd, r: Cmd)
    | Or(l: Cmd, r: Cmd)
    | List(car: Option<Cmd>, cdr: Option<Cmd>)

  // PHERE, PIN, POUT, PERR
  datatype Flags = Flags(here: bool, pin: bool, pout: bool, perr: bool)

  // A tree and the first error raised while it was built.
  datatype Parsed = Parsed(cmd: Cmd, err: Option<Error>)

  datatype Maybe = Maybe(cmd: Option<Cmd>, err: Option<Error>)

  function Earliest(a: Option<Error>, b: Option<Error>): Option<Error> {
    if a.Some? then a else b
  }

  // ----- parentheses -----

  // How many parentheses are open in front of word k.
  function Depth(seg: seq<string>, k: nat): int
    requires k <= |seg|
  {
    if k == 0 then 0
    else Depth(seg, k - 1) + (if First(seg[k - 1]) == '(' then 1 else if First(seg[k - 1]) == ')' then -1 else 0)
  }

  // The running count never goes negative (asyn0 has seen to that).
  ghost predicate NonNegative(seg: seq<string>) {
    forall k :: 0 <= k <= |seg| ==> Depth(seg, k) >= 0
  }

  ghost predicate Balanced(seg: seq<string>) {
    NonNegative(seg) && Depth(seg, |seg|) == 0
  }

  lemma {:induction false} DepthPrefix(seg: seq<string>, n: nat, k: nat)
    requires k <= n <= |seg|
    ensures Depth(seg[..n], k) == Depth(seg, k)
  {
    if k > 0 { DepthPrefix(seg, n, k - 1); }
  }

  lemma {:induction false} DepthSuffix(seg: seq<string>, n: nat, k: nat)
    requires n + k <= |seg|
    ensures Depth(seg[n..], k) == Depth(seg, n + k) - Depth(seg, n)
  {
    if k > 0 { DepthSuffix(seg, n, k - 1); }
  }

  // A segment cut at depth zero falls into segments that count as it does.
  lemma Cut(seg: seq<string>, k: nat)
    requires NonNegative(seg) && k <= |seg| && Depth(seg, k) == 0
    ensures Balanced(seg[..k]) && NonNegative(seg[k..])
    ensures Balanced(seg) ==> Balanced(seg[k..])
  {
    forall j | 0 <= j <= k ensures Depth(seg[..k], j) == Depth(seg, j) { DepthPrefix(seg, k, j); }
    forall j | 0 <= j <= |seg| - k ensures Depth(seg[k..], j) == Depth(seg, k + j) { DepthSuffix(seg, k, j); }
  }

  // ----- operators outside parentheses -----

  datatype Kind = Amp | Semi | OrOr | AndAnd | Bar

  // The scan of syn0 passes over an & that follows one of these.
  predicate Skipper(w: string) {
    First(w) == '>' || (First(w) == '|' && Second(w) != '|')
  }

  predicate Hits(kind: Kind, seg: seq<string>, k: nat)
    requires k < |seg|
  {
    var w := seg[k];
    match kind
    case Amp =>
      First(w) == '&' && Second(w) != '&' && !(w == "&" && k > 0 && Skipper(seg[k - 1]))
    case Semi => First(w) == ';' || First(w) == '\n'
    case OrOr => First(w) == '|' && Second(w) == '|'
    case AndAnd => First(w) == '&' && Second(w) == '&'
    case Bar => First(w) == '|'
  }

  predicate TopHit(kind: Kind, seg: seq<string>, k: nat) {
    k < |seg| && Depth(seg, k) == 0 && Hits(kind, seg, k)
  }

  // The first operator of the kind at or after i.
  function FindTop(kind: Kind, seg: seq<string>, i: nat): (r: Option<nat>)
    requires i <= |seg|
    ensures r.Some? ==> i <= r.value && TopHit(kind, seg, r.value)
    ensures forall j :: i <= j < (if r.Some? then r.value else |seg|) ==> !TopHit(kind, seg, j)
    decreases |seg| - i
  {
    if i == |seg| then None
    else if TopHit(kind, seg, i) then Some(i)
    else FindTop(kind, seg, i + 1)
  }

  // Operators are no parentheses.
  lemma HitDepth(kind: Kind, seg: seq<string>, k: nat)
    requires TopHit(kind, seg, k)
    ensures Depth(seg, k + 1) == 0
  {
  }

  predicate IsSep(w: string) {
    First(w) == ';' || First(w) == '&' || First(w) == '\n'
  }

  function SkipSeps(seg: seq<string>): (r: seq<string>)
    ensures |r| <= |seg| && r == seg[|seg| - |r|..] && (r == [] || !IsSep(r[0]))
    ensures seg != [] && IsSep(seg[0]) ==> |r| < |seg|
  {
    if seg != [] && IsSep(seg[0]) then SkipSeps(seg[1..]) else seg
  }

  lemma {:induction false} SkipSepsCut(seg: seq<string>)
    requires NonNegative(seg)
    ensures NonNegative(SkipSeps(seg)) && (Balanced(seg) ==> Balanced(SkipSeps(seg)))
  {
    if seg != [] && IsSep(seg[0]) {
      assert Depth(seg, 1) == Depth(seg, 0);
      Cut(seg, 1);
      SkipSepsCut(seg[1..]);
    }
  }

  // ----- simple commands -----

  // KEYWORD commands take their parentheses as words.
  predicate IsSpecial(seg: seq<string>) {
    seg != [] &&
    match Keyword(seg[0])
    case Some(T_ELSE) => IsSpecial(seg[1..])
    case Some(t) => t in {T_EXIT, T_FOREACH, T_IF, T_LET, T_SET, T_SWITCH, T_WHILE}
    case None => false
  }

  // What syn3 has gathered in front of word i: open parentheses l, the saved words, the
  // last ( ) pair at the outermost level.
  datatype Fill = Fill(
    i: nat, l: int, av: seq<string>, lp: Option<nat>, rp: Option<nat>, redirs: Redirs, err: Option<Error>)

  predicate IsRelpar(w: string) {
    First(w) == '<' || First(w) == '>' || First(w) == '(' || First(w) == ')'
  }

  function Raise(st: Fill, e: Error): Fill {
    st.(err := Earliest(st.err, Some(e)))
  }

  function OpenParen(seg: seq<string>, st: Fill, specp: bool): Fill
    requires st.i < |seg|
  {
    var st1 := if st.l == 0 && st.lp.Some? && !specp then Raise(st, BadPLP) else st;
    st1.(i := st.i + 1, l := st.l + 1,
         lp := if st.l == 0 then Some(st.i + 1) else st.lp,
         av := if specp then st.av + [seg[st.i]] else st.av)
  }

  function CloseParen(seg: seq<string>, st: Fill, specp: bool): Fill
    requires st.i < |seg|
  {
    st.(i := st.i + 1, l := st.l - 1,
        rp := if st.l == 1 then Some(st.i) else st.rp,
        av := if specp then st.av + [seg[st.i]] else st.av)
  }

  // The name behind the signs of a redirection.
  function OutputName(seg: seq<string>, st: Fill, flags: Flags): (r: Fill)
    requires st.i <= |seg|
    ensures st.i <= r.i <= |seg|
  {
    if st.i == |seg| then Raise(st, MisRed)
    else if IsRelpar(seg[st.i]) then Raise(st.(i := st.i + 1), MisRed)
    else if flags.pout && (!flags.perr || st.redirs.output.Some?) then Raise(st.(i := st.i + 1), OutRed)
    else st.(i := st.i + 1, redirs := st.redirs.(output := Some(seg[st.i])))
  }

  // > >> >& >! and their name
  function OutputRedir(seg: seq<string>, st: Fill, flags: Flags): (r: Fill)
    requires st.i < |seg|
    ensures st.i < r.i <= |seg|
  {
    var rd := st.redirs;
    var rd1 := if Second(seg[st.i]) == '>' then rd.(append := true) else rd;
    var i1 := st.i + 1;
    var err := i1 < |seg| && seg[i1] == "&";
    var rd2 := if err then rd1.(stderr := true) else rd1;
    var i2 := if err then i1 + 1 else i1;
    if err && (flags.pout || flags.perr) then Raise(st.(i := i2, redirs := rd2), OutRed)
    else
      var bang := i2 < |seg| && seg[i2] == "!";
      var rd3 := if bang then rd2.(overwrite := true) else rd2;
      OutputName(seg, st.(i := if bang then i2 + 1 else i2, redirs := rd3), flags)
  }

  // < << and their name
  function InputRedir(seg: seq<string>, st: Fill, flags: Flags): (r: Fill)
    requires st.i < |seg|
    ensures st.i < r.i <= |seg|
  {
    var rd := if Second(seg[st.i]) == '<' then st.redirs.(read := true) else st.redirs;
    var i1 := st.i + 1;
    if i1 == |seg| then Raise(st.(i := i1, redirs := rd), MisRed)
    else if IsRelpar(seg[i1]) then Raise(st.(i := i1 + 1, redirs := rd), MisRed)
    else if flags.here && rd.read then Raise(st.(i := i1 + 1, redirs := rd), RedPar)
    else if flags.pin || rd.input.Some? then Raise(st.(i := i1 + 1, redirs := rd), InRed)
    else st.(i := i1 + 1, redirs := rd.(input := Some(seg[i1])))
  }

  // One round of the fill loop.
  function FillStep(seg: seq<string>, st: Fill, specp: bool, flags: Flags): (r: Fill)
    requires st.i < |seg|
    ensures st.i < r.i <= |seg|
  {
    var c := First(seg[st.i]);
    if c == '(' then OpenParen(seg, st, specp)
    else if c == ')' then CloseParen(seg, st, specp)
    else if c == '>' && st.l == 0 then OutputRedir(seg, st, flags)
    else if c == '<' && st.l == 0 then InputRedir(seg, st, flags)
    else st.(i := st.i + 1, av := if st.l == 0 || specp then st.av + [seg[st.i]] else st.av)
  }

  const FillStart := Fill(0, 0, [], None, None, NoRedirs, None)

  function FillFrom(seg: seq<string>, st: Fill, specp: bool, flags: Flags): (r: Fill)
    requires st.i <= |seg|
    ensures r.i == |seg|
    decreases |seg| - st.i
  {
    if st.i == |seg| then st else FillFrom(seg, FillStep(seg, st, specp, flags), specp, flags)
  }

  // Redirection errors swallow opening parentheses, never more closing ones: c counts
  // them. The last outermost pair, once closed, encloses a balanced segment.
  ghost predicate FillSound(seg: seq<string>, st: Fill) {
    && st.i <= |seg|
    && Depth(seg, st.i) >= st.l
    && (st.l >= 1 ==>
          && st.lp.Some? && 1 <= st.lp.value <= st.i
          && (forall k :: st.lp.value <= k <= st.i ==> Depth(seg, k) - Depth(seg, st.lp.value) >= 0)
          && Depth(seg, st.i) - Depth(seg, st.lp.value) == st.l - 1)
    && (st.l <= 0 && st.lp.Some? ==>
          && st.rp.Some? && st.lp.value <= st.rp.value < st.i
          && (forall k :: st.lp.value <= k <= st.rp.value ==> Depth(seg, k) - Depth(seg, st.lp.value) >= 0)
          && Depth(seg, st.rp.value) == Depth(seg, st.lp.value))
  }

  lemma RedirKeepsPairs(seg: seq<string>, st: Fill, r: Fill)
    requires NonNegative(seg) && FillSound(seg, st) && st.l == 0
    requires st.i <= r.i <= |seg| && r.l == 0 && r.lp == st.lp && r.rp == st.rp
    ensures FillSound(seg, r)
  {
  }

  lemma OpenParenSound(seg: seq<string>, st: Fill, specp: bool)
    requires FillSound(seg, st) && st.i < |seg| && First(seg[st.i]) == '('
    ensures FillSound(seg, OpenParen(seg, st, specp))
  {
    assert Depth(seg, st.i + 1) == Depth(seg, st.i) + 1;
  }

  lemma CloseParenSound(seg: seq<string>, st: Fill, specp: bool)
    requires FillSound(seg, st) && st.i < |seg| && First(seg[st.i]) == ')'
    ensures FillSound(seg, CloseParen(seg, st, specp))
  {
    assert Depth(seg, st.i + 1) == Depth(seg, st.i) - 1;
  }

  lemma FillStepSound(seg: seq<string>, st: Fill, specp: bool, flags: Flags)
    requires NonNegative(seg) && FillSound(seg, st) && st.i < |seg|
    ensures FillSound(seg, FillStep(seg, st, specp, flags))
  {
    var c := First(seg[st.i]);
    if c == '(' {
      OpenParenSound(seg, st, specp);
    } else if c == ')' {
      CloseParenSound(seg, st, specp);
    } else if st.l == 0 && (c == '>' || c == '<') {
      RedirKeepsPairs(seg, st, FillStep(seg, st, specp, flags));
    } else {
      assert Depth(seg, st.i + 1) == Depth(seg, st.i);
    }
  }

  lemma {:induction false} FillFromSound(seg: seq<string>, st: Fill, specp: bool, flags: Flags)
    requires Balanced(seg) && FillSound(seg, st)
    ensures FillSound(seg, FillFrom(seg, st, specp, flags))
    decreases |seg| - st.i
  {
    if st.i < |seg| {
      FillStepSound(seg, st, specp, flags);
      FillFromSound(seg, FillStep(seg, st, specp, flags), specp, flags);
    }
  }

  // When a pair of parentheses was seen, its closing one was too, and what they enclose
  // is balanced: also in a malformed segment.
  lemma PairBalanced(seg: seq<string>, specp: bool, flags: Flags)
    requires Balanced(seg)
    ensures var st := FillFrom(seg, FillStart, specp, flags);
            st.lp.Some? ==> st.rp.Some? && st.lp.value <= st.rp.value < |seg|
                            && Balanced(seg[st.lp.value..st.rp.value])
  {
    var st := FillFrom(seg, FillStart, specp, flags);
    FillFromSound(seg, FillStart, specp, flags);
    if st.lp.Some? {
      Between(seg, st.lp.value, st.rp.value);
    }
  }

  lemma {:induction false} SliceDepth(seg: seq<string>, lo: nat, hi: nat, k: nat)
    requires lo + k <= hi <= |seg|
    ensures Depth(seg[lo..hi], k) == Depth(seg, lo + k) - Depth(seg, lo)
  {
    if k > 0 {
      SliceDepth(seg, lo, hi, k - 1);
      assert seg[lo..hi][k - 1] == seg[lo + k - 1];
    }
  }

  lemma Between(seg: seq<string>, lo: nat, hi: nat)
    requires lo <= hi <= |seg|
    requires forall k :: lo <= k <= hi ==> Depth(seg, k) - Depth(seg, lo) >= 0
    requires Depth(seg, hi) == Depth(seg, lo)
    ensures Balanced(seg[lo..hi])
  {
    forall k | 0 <= k <= hi - lo ensures Depth(seg[lo..hi], k) >= 0 {
      SliceDepth(seg, lo, hi, k);
      assert Depth(seg, lo + k) - Depth(seg, lo) >= 0;
    }
    SliceDepth(seg, lo, hi, hi - lo);
  }

  // ----- the descent: stop is the first character of the word behind the segment -----

  // empty, or syn0
  function Syntax(seg: seq<string>, stop: char, flags: Flags): (r: Maybe)
    requires NonNegative(seg)
    ensures Balanced(seg) && SkipSeps(seg) != [] ==> r.cmd.Some?
    decreases |SkipSeps(seg)|, 8
  {
    SkipSepsCut(seg);
    if SkipSeps(seg) == [] then Maybe(None, None) else Syn0(SkipSeps(seg), stop, flags)
  }

  // A list, && or || put in the background is parenthesised first.
  function Background(t: Cmd): Cmd {
    match t
    case Command(av, redirs, _, nofork) => Command(av, redirs, true, nofork)
    case Paren(sub, redirs, _, nofork) => Paren(sub, redirs, true, nofork)
    case Pipe(l, r, stderr, _) => Pipe(l, r, stderr, true)
    case _ => Paren(t, NoRedirs, true, false)
  }

  // syn1, or syn1 & syntax
  function Syn0(seg: seq<string>, stop: char, flags: Flags): (r: Maybe)
    requires NonNegative(seg)
    ensures Balanced(seg) ==> r.cmd.Some?
    decreases |seg|, 7
  {
    match FindTop(Amp, seg, 0)
    case Some(k) =>
      Cut(seg, k);
      var left := Syn1(seg[..k], '&', flags);
      assert IsSep(seg[k..][0]);
      var right := Syntax(seg[k..], stop, flags);
      Maybe(Some(List(Some(Background(left.cmd)), right.cmd)), Earliest(left.err, right.err))
    case None =>
      if Depth(seg, |seg|) == 0 then
        var t := Syn1(seg, stop, flags);
        Maybe(Some(t.cmd), t.err)
      else Maybe(None, Some(TooManyLP))
  }

  // syn1a, or syn1a ; syntax
  function Syn1(seg: seq<string>, stop: char, flags: Flags): Parsed
    requires Balanced(seg)
    decreases |seg|, 6
  {
    match FindTop(Semi, seg, 0)
    case Some(k) =>
      Cut(seg, k);
      HitDepth(Semi, seg, k);
      Cut(seg, k + 1);
      var left := Syn1a(seg[..k], First(seg[k]), flags);
      var right := Syntax(seg[k + 1..], stop, flags);
      Parsed(if right.cmd.None? then List(None, Some(left.cmd)) else List(Some(left.cmd), right.cmd),
             Earliest(left.err, right.err))
    case None => Syn1a(seg, stop, flags)
  }

  // syn1b, or syn1b || syn1a
  function Syn1a(seg: seq<string>, stop: char, flags: Flags): Parsed
    requires Balanced(seg)
    decreases |seg|, 5
  {
    match FindTop(OrOr, seg, 0)
    case Some(k) =>
      Cut(seg, k);
      HitDepth(OrOr, seg, k);
      Cut(seg, k + 1);
      var left := Syn1b(seg[..k], '|', flags);
      var right := Syn1a(seg[k + 1..], stop, flags);
      Parsed(Or(left.cmd, right.cmd), Earliest(left.err, right.err))
    case None => Syn1b(seg, stop, flags)
  }

  // syn2, or syn2 && syn1b
  function Syn1b(seg: seq<string>, stop: char, flags: Flags): Parsed
    requires Balanced(seg)
    decreases |seg|, 4
  {
    match FindTop(AndAnd, seg, 0)
    case Some(k) =>
      Cut(seg, k);
      HitDepth(AndAnd, seg, k);
      Cut(seg, k + 1);
      var left := Syn2(seg[..k], '&', flags);
      var right := Syn1b(seg[k + 1..], stop, flags);
      Parsed(And(left.cmd, right.cmd), Earliest(left.err, right.err))
    case None => Syn2(seg, stop, flags)
  }

  // The segment behind the bar at k, or behind its |&.
  function BehindBar(seg: seq<string>, k: nat): nat
    requires k < |seg|
  {
    if k + 1 < |seg| && First(seg[k + 1]) == '&' then k + 2 else k + 1
  }

  lemma BarCut(seg: seq<string>, k: nat)
    requires Balanced(seg) && TopHit(Bar, seg, k)
    ensures Balanced(seg[..k]) && BehindBar(seg, k) <= |seg| && Balanced(seg[BehindBar(seg, k)..])
  {
    Cut(seg, k);
    HitDepth(Bar, seg, k);
    assert BehindBar(seg, k) == k + 2 ==> Depth(seg, k + 2) == Depth(seg, k + 1);
    Cut(seg, BehindBar(seg, k));
  }

  // syn3, or syn3 | syn2, or syn3 |& syn2
  function Syn2(seg: seq<string>, stop: char, flags: Flags): Parsed
    requires Balanced(seg)
    decreases |seg|, 3
  {
    match FindTop(Bar, seg, 0)
    case Some(k) =>
      BarCut(seg, k);
      var err := BehindBar(seg, k) == k + 2;
      var left := Syn3(seg[..k], '|', flags.(pout := true, perr := flags.perr || err));
      var right := Syn2(seg[BehindBar(seg, k)..], stop, flags.(pin := true));
      Parsed(Pipe(left.cmd, right.cmd, err, false), Earliest(left.err, right.err))
    case None => Syn3(seg, stop, flags)
  }

  // ( syn0 ), or words, with redirections
  function Syn3(seg: seq<string>, stop: char, flags: Flags): Parsed
    requires Balanced(seg)
    decreases |seg|, 2
  {
    var specp := IsSpecial(seg);
    var st := FillFrom(seg, FillStart, specp, flags);
    PairBalanced(seg, specp, flags);
    FillFromSound(seg, FillStart, specp, flags);
    if st.lp.Some? && !specp then
      var sub := Syn0(seg[st.lp.value..st.rp.value], ')', Flags(true, false, false, false));
      Parsed(Paren(sub.cmd.value, st.redirs, false, stop == ')'),
             Earliest(st.err, Earliest(if st.av != [] then Some(BadPLPS) else None, sub.err)))
    else
      Parsed(Command(st.av, st.redirs, false, stop == ')'),
             Earliest(st.err, if st.av == [] then Some(NullCom) else None))
  }
}

// A printer for command trees, and the trees it is meant for.
module ParserShow {
  import opened Shared
  import opened Keywords
  import opened Parser

  // ----- printing -----

  function InWords(rd: Redirs): seq<string> {
    if rd.input.None? then [] else [if rd.read then "<<" else "<", rd.input.value]
  }

  function OutWords(rd: Redirs): seq<string> {
    if rd.output.None? then []
    else [if rd.append then ">>" else ">"] + (if rd.stderr then ["&"] else [])
         + (if rd.overwrite then ["!"] else []) + [rd.output.value]
  }

  predicate IsAmp(t: Cmd) {
    match t
    case Command(_, _, amp, _) => amp
    case Paren(_, _, amp, _) => amp
    case Pipe(_, _, _, amp) => amp
    case _ => false
  }

  // A list none of whose commands runs in the background.
  predicate Foreground(t: Cmd) {
    match t
    case List(car, cdr) => (car.Some? ==> !IsAmp(car.value)) && (cdr.Some? ==> Foreground(cdr.value))
    case _ => true
  }

  // A background node that & makes by itself: its parentheses are not printed.
  predicate IsBare(t: Cmd) {
    t.Paren? && t.amp && t.redirs == NoRedirs && (t.sub.And? || t.sub.Or? || t.sub.List?) && Foreground(t.sub)
  }

  function Show(t: Cmd): seq<string> {
    match t
    case Command(av, rd, _, _) => av + InWords(rd) + OutWords(rd)
    case Paren(sub, rd, _, _) => if IsBare(t) then Show(sub) else ["("] + Show(sub) + [")"] + InWords(rd) + OutWords(rd)
    case Pipe(l, r, stderr, _) => Show(l) + (if stderr then ["|", "&"] else ["|"]) + Show(r)
    case And(l, r) => Show(l) + ["&&"] + Show(r)
    case Or(l, r) => Show(l) + ["||"] + Show(r)
    case List(car, cdr) =>
      var rest := if cdr.Some? then Show(cdr.value) else [];
      if car.None? then rest + [";"]
      else if IsAmp(car.value) then Show(car.value) + ["&"] + rest
      else Show(car.value) + [";"] + rest
  }

  // ----- trees the parser builds, level by level -----

  predicate IsName(w: string) {
    var c := First(w);
    !IsRelpar(w) && c != '&' && c != '|' && c != ';' && c != '\n'
  }

  // A word outside parentheses, parentheses themselves included.
  predicate IsTopWord(w: string) {
    var c := First(w);
    c != '<' && c != '>' && c != '&' && c != '|' && c != ';' && c != '\n'
  }

  predicate RedirsFit(rd: Redirs, flags: Flags) {
    && (rd.input.Some? ==> IsName(rd.input.value) && !flags.pin && !(rd.read && flags.here))
    && (rd.input.None? ==> !rd.read)
    && (rd.output.Some? ==>
          && IsName(rd.output.value) && (rd.output.value == "!" ==> rd.overwrite)
          && !(flags.pout && !flags.perr) && !(rd.stderr && (flags.pout || flags.perr)))
    && (rd.output.None? ==> !rd.append && !rd.stderr && !rd.overwrite)
  }

  predicate IsParen(w: string) {
    First(w) == '(' || First(w) == ')'
  }

  ghost predicate WordsFit(av: seq<string>) {
    && Balanced(av)
    && (forall k :: 0 <= k < |av| && Depth(av, k) == 0 ==> IsTopWord(av[k]))
    && (!IsSpecial(av) ==> forall k :: 0 <= k < |av| ==> !IsParen(av[k]))
  }

  const Here := Flags(true, false, false, false)

  // A tree of level k: 0 for syn0 up to 5 for syn3. Whether the tree itself runs in the
  // background is left open.
  ghost predicate Fits(t: Cmd, k: nat, flags: Flags)
    decreases t, 6 - k
  {
    if k == 0 then
      if t.List? && t.car.Some? && IsAmp(t.car.value) then
        && FitsBack(t.car.value, flags)
        && (t.cdr.Some? ==> Fits(t.cdr.value, 0, flags) && !IsAmp(t.cdr.value))
      else Fits(t, 1, flags)
    else if k == 1 && t.List? then
      && t.cdr.Some? && !IsAmp(t.cdr.value)
      && (t.car.None? ==> Fits(t.cdr.value, 2, flags))
      && (t.car.Some? ==> Fits(t.car.value, 2, flags) && !IsAmp(t.car.value) && Fits(t.cdr.value, 1, flags))
    else if k == 2 && t.Or? then
      Fits(t.l, 3, flags) && !IsAmp(t.l) && Fits(t.r, 2, flags) && !IsAmp(t.r)
    else if k == 3 && t.And? then
      Fits(t.l, 4, flags) && !IsAmp(t.l) && Fits(t.r, 3, flags) && !IsAmp(t.r)
    else if k == 4 && t.Pipe? then
      && Fits(t.l, 5, flags.(pout := true, perr := flags.perr || t.stderr)) && !IsAmp(t.l)
      && Fits(t.r, 4, flags.(pin := true)) && !IsAmp(t.r)
    else if k < 5 then Fits(t, k + 1, flags)
    else if k == 5 && t.Command? then t.av != [] && WordsFit(t.av) && RedirsFit(t.redirs, flags)
    else if k == 5 && t.Paren? then RedirsFit(t.redirs, flags) && Fits(t.sub, 0, Here) && !IsAmp(t.sub)
    else false
  }

  // A tree in front of an &.
  ghost predicate FitsBack(a: Cmd, flags: Flags)
    decreases a, 6
  {
    IsAmp(a) && if IsBare(a) then Fits(a.sub, 1, flags) else Fits(a, 4, flags)
  }

  // ----- scanning concatenations -----

  lemma {:induction false} DepthConcat(a: seq<string>, b: seq<string>, k: nat)
    requires k <= |b|
    ensures Depth(a + b, |a| + k) == Depth(a, |a|) + Depth(b, k)
  {
    DepthSuffix(a + b, |a|, k);
    DepthPrefix(a + b, |a|, |a|);
    assert (a + b)[|a|..] == b && (a + b)[..|a|] == a;
  }

  lemma DepthLeft(a: seq<string>, b: seq<string>, k: nat)
    requires k <= |a|
    ensures Depth(a + b, k) == Depth(a, k)
  {
    DepthPrefix(a + b, |a|, k);
    assert (a + b)[..|a|] == a;
  }

  lemma BalancedConcat(a: seq<string>, b: seq<string>)
    requires Balanced(a) && Balanced(b)
    ensures Balanced(a + b)
  {
    forall k | 0 <= k <= |a + b| ensures Depth(a + b, k) >= 0 {
      if k <= |a| { DepthLeft(a, b, k); } else { DepthConcat(a, b, k - |a|); }
    }
    DepthConcat(a, b, |b|);
  }

  ghost predicate Quiet(kind: Kind, w: seq<string>) {
    forall j :: 0 <= j < |w| ==> !TopHit(kind, w, j)
  }

  lemma QuietConcat(kind: Kind, a: seq<string>, b: seq<string>)
    requires Balanced(a) && Quiet(kind, a) && Quiet(kind, b)
    ensures Quiet(kind, a + b)
  {
    forall j | 0 <= j < |a + b| ensures !TopHit(kind, a + b, j) {
      if j < |a| {
        DepthLeft(a, b, j);
        assert !TopHit(kind, a, j);
      } else {
        DepthConcat(a, b, j - |a|);
        assert !TopHit(kind, b, j - |a|);
      }
    }
  }

  lemma FindQuiet(kind: Kind, w: seq<string>)
    requires Quiet(kind, w)
    ensures FindTop(kind, w, 0) == None
  {
  }

  lemma {:induction false} FindFirst(kind: Kind, w: seq<string>, i: nat, k: nat)
    requires i <= k && TopHit(kind, w, k) && forall j :: i <= j < k ==> !TopHit(kind, w, j)
    ensures FindTop(kind, w, i) == Some(k)
    decreases k - i
  {
    if i < k { FindFirst(kind, w, i + 1, k); }
  }

  // The operator behind a quiet part is found first, and the parts around it come back.
  lemma FindJoined(kind: Kind, a: seq<string>, op: string, b: seq<string>)
    requires Balanced(a) && Quiet(kind, a)
    requires Hits(kind, a + [op] + b, |a|)
    ensures FindTop(kind, a + [op] + b, 0) == Some(|a|)
    ensures (a + [op] + b)[..|a|] == a && (a + [op] + b)[|a| + 1..] == b && (a + [op] + b)[|a|..] == [op] + b
  {
    var w := a + [op] + b;
    assert w == a + ([op] + b);
    DepthConcat(a, [op] + b, 0);
    forall j | 0 <= j < |a| ensures !TopHit(kind, w, j) {
      DepthLeft(a, [op] + b, j);
      assert !TopHit(kind, a, j);
    }
    FindFirst(kind, w, 0, |a|);
  }

  // What printed trees of level k have in common.
  ghost predicate Solid(w: seq<string>, k: nat) {
    && w != [] && Balanced(w) && !Skipper(w[|w| - 1]) && !IsSep(w[0])
    && (k >= 1 ==> Quiet(Amp, w)) && (k >= 2 ==> Quiet(Semi, w)) && (k >= 3 ==> Quiet(OrOr, w))
    && (k >= 4 ==> Quiet(AndAnd, w)) && (k >= 5 ==> Quiet(Bar, w))
  }

  predicate IsOp(op: seq<string>) {
    op == ["&"] || op == [";"] || op == ["||"] || op == ["&&"] || op == ["|"] || op == ["|", "&"]
  }

  // The level at which an operator is split off: below it the operator is no hit.
  function OpLevel(op: seq<string>): nat
    requires IsOp(op)
  {
    if op == ["&"] then 0 else if op == [";"] then 1 else if op == ["||"] then 2 else if op == ["&&"] then 3 else 4
  }

  lemma OpQuiet(op: seq<string>)
    requires IsOp(op)
    ensures Balanced(op)
    ensures OpLevel(op) >= 1 ==> Quiet(Amp, op)
    ensures OpLevel(op) >= 2 ==> Quiet(Semi, op)
    ensures OpLevel(op) >= 3 ==> Quiet(OrOr, op)
    ensures OpLevel(op) >= 4 ==> Quiet(AndAnd, op)
  {
    assert Depth(op, 0) == 0 && Depth(op, 1) == 0 && (|op| == 2 ==> Depth(op, 2) == 0);
  }

  lemma JoinSolid(a: seq<string>, op: seq<string>, b: seq<string>, k: nat)
    requires IsOp(op) && k <= OpLevel(op) && Solid(a, k) && Solid(b, k)
    ensures Solid(a + op + b, k)
  {
    OpQuiet(op);
    BalancedConcat(a, op);
    BalancedConcat(a + op, b);
    if k >= 1 { QuietConcat(Amp, a, op); QuietConcat(Amp, a + op, b); }
    if k >= 2 { QuietConcat(Semi, a, op); QuietConcat(Semi, a + op, b); }
    if k >= 3 { QuietConcat(OrOr, a, op); QuietConcat(OrOr, a + op, b); }
    if k >= 4 { QuietConcat(AndAnd, a, op); QuietConcat(AndAnd, a + op, b); }
  }

  // An operator with nothing behind it.
  lemma EndSolid(a: seq<string>, op: seq<string>, k: nat)
    requires (op == ["&"] || op == [";"]) && k <= OpLevel(op) && Solid(a, k)
    ensures Solid(a + op, k)
  {
    OpQuiet(op);
    BalancedConcat(a, op);
    if k >= 1 { QuietConcat(Amp, a, op); }
  }

  // Words none of which is a parenthesis, an operator or a redirection sign, except that
  // & may follow a >.
  lemma RedirWordsQuiet(rd: Redirs, flags: Flags)
    requires RedirsFit(rd, flags)
    ensures var w := InWords(rd) + OutWords(rd);
            && Balanced(w) && (forall kind :: Quiet(kind, w))
            && (w != [] ==> !Skipper(w[|w| - 1]))
  {
    var a, b := InWords(rd), OutWords(rd);
    if rd.output.Some? {
      assert b[0] == (if rd.append then ">>" else ">");
      assert forall j :: 1 <= j < |b| ==> (b[j] == "&" && j == 1) || IsName(b[j]);
    }
    assert forall j :: 0 <= j < |b| ==> RedirAt(b, j);
    assert forall j :: 0 <= j < |a| ==> RedirAt(a, j);
    PartQuiet(a);
    PartQuiet(b);
    BalancedConcat(a, b);
    forall kind ensures Quiet(kind, a + b) { QuietConcat(kind, a, b); }
  }

  predicate RedirAt(w: seq<string>, j: nat)
    requires j < |w|
  {
    || IsName(w[j]) || w[j] == "<" || w[j] == "<<" || w[j] == ">" || w[j] == ">>"
    || (w[j] == "&" && j > 0 && (w[j - 1] == ">" || w[j - 1] == ">>"))
  }

  lemma PartQuiet(w: seq<string>)
    requires forall j :: 0 <= j < |w| ==> RedirAt(w, j)
    ensures Balanced(w) && forall kind :: Quiet(kind, w)
  {
    assert forall j :: 0 <= j < |w| ==> !IsParen(w[j]) by {
      forall j | 0 <= j < |w| ensures !IsParen(w[j]) { assert RedirAt(w, j); }
    }
    forall k | 0 <= k <= |w| ensures Depth(w, k) == 0 { NoParens(w, k); }
    forall kind: Kind, j | 0 <= j < |w| ensures !TopHit(kind, w, j) { assert RedirAt(w, j); }
  }

  lemma {:induction false} NoParens(w: seq<string>, k: nat)
    requires k <= |w| && forall j :: 0 <= j < |w| ==> !IsParen(w[j])
    ensures Depth(w, k) == 0
  {
    if k > 0 { NoParens(w, k - 1); }
  }

  // ----- printed trees are solid -----

  lemma WordsSolid(av: seq<string>)
    requires av != [] && WordsFit(av)
    ensures Solid(av, 5)
  {
    forall kind: Kind, j | 0 <= j < |av| ensures !TopHit(kind, av, j) {
      if Depth(av, j) == 0 { assert IsTopWord(av[j]); }
    }
    assert Depth(av, 0) == 0;
    var n := |av| - 1;
    assert Depth(av, n + 1) == 0;
    assert Depth(av, n) == 0 || First(av[n]) == ')';
  }

  lemma GroupSolid(s: seq<string>)
    requires Balanced(s)
    ensures Solid(["("] + s + [")"], 5)
  {
    var w := ["("] + s + [")"];
    assert w == (["("] + s) + [")"];
    assert Depth(["("], 1) == 1 by { assert Depth(["("], 0) == 0; }
    forall k | 1 <= k <= |s| + 1 ensures Depth(w, k) == 1 + Depth(s, k - 1) {
      DepthLeft(["("] + s, [")"], k);
      DepthConcat(["("], s, k - 1);
    }
    assert w[|s| + 1] == ")" && Depth(w, |s| + 2) == 0;
    forall kind: Kind, j | 0 <= j < |w| ensures !TopHit(kind, w, j) {
      if j > 0 { assert Depth(w, j) > 0; }
    }
  }

  lemma WithRedirsSolid(w: seq<string>, rd: Redirs, flags: Flags)
    requires Solid(w, 5) && RedirsFit(rd, flags)
    ensures Solid(w + InWords(rd) + OutWords(rd), 5)
  {
    RedirWordsQuiet(rd, flags);
    var r := InWords(rd) + OutWords(rd);
    assert w + InWords(rd) + OutWords(rd) == w + r;
    BalancedConcat(w, r);
    QuietConcat(Amp, w, r);
    QuietConcat(Semi, w, r);
    QuietConcat(OrOr, w, r);
    QuietConcat(AndAnd, w, r);
    QuietConcat(Bar, w, r);
  }

  lemma {:induction false} ShowSolid(t: Cmd, k: nat, flags: Flags)
    requires k <= 5 && Fits(t, k, flags) && !IsBare(t)
    ensures Solid(Show(t), k)
    decreases t, 6 - k
  {
    if t.List? && k == 0 && t.car.Some? && IsAmp(t.car.value) {
      AmpListSolid(t, flags);
    } else if t.List? && k == 1 {
      SemiListSolid(t, flags);
    } else if (t.Or? && k == 2) || (t.And? && k == 3) {
      EitherSolid(t, k, flags);
    } else if t.Pipe? && k == 4 {
      PipeSolid(t, flags);
    } else if k < 5 {
      ShowSolid(t, k + 1, flags);
    } else {
      SimpleSolid(t, flags);
    }
  }

  lemma {:induction false} AmpListSolid(t: Cmd, flags: Flags)
    requires t.List? && t.car.Some? && IsAmp(t.car.value) && Fits(t, 0, flags)
    ensures Solid(Show(t), 0)
    decreases t, 0
  {
    var a := Show(t.car.value);
    BackSolid(t.car.value, flags);
    if t.cdr.Some? {
      ShowSolid(t.cdr.value, 0, flags);
      JoinSolid(a, ["&"], Show(t.cdr.value), 0);
    } else {
      EndSolid(a, ["&"], 0);
      assert Show(t) == a + ["&"];
    }
  }

  lemma {:induction false} SemiListSolid(t: Cmd, flags: Flags)
    requires t.List? && Fits(t, 1, flags)
    ensures Solid(Show(t), 1)
    decreases t, 0
  {
    if t.car.None? {
      ShowSolid(t.cdr.value, 2, flags);
      EndSolid(Show(t.cdr.value), [";"], 1);
    } else {
      ShowSolid(t.car.value, 2, flags);
      ShowSolid(t.cdr.value, 1, flags);
      JoinSolid(Show(t.car.value), [";"], Show(t.cdr.value), 1);
    }
  }

  lemma {:induction false} EitherSolid(t: Cmd, k: nat, flags: Flags)
    requires ((t.Or? && k == 2) || (t.And? && k == 3)) && Fits(t, k, flags)
    ensures Solid(Show(t), k)
    decreases t, 0
  {
    ShowSolid(t.l, k + 1, flags);
    ShowSolid(t.r, k, flags);
    JoinSolid(Show(t.l), if t.Or? then ["||"] else ["&&"], Show(t.r), k);
  }

  lemma {:induction false} PipeSolid(t: Cmd, flags: Flags)
    requires t.Pipe? && Fits(t, 4, flags)
    ensures Solid(Show(t), 4)
    decreases t, 0
  {
    ShowSolid(t.l, 5, flags.(pout := true, perr := flags.perr || t.stderr));
    ShowSolid(t.r, 4, flags.(pin := true));
    JoinSolid(Show(t.l), if t.stderr then ["|", "&"] else ["|"], Show(t.r), 4);
  }

  lemma {:induction false} SimpleSolid(t: Cmd, flags: Flags)
    requires Fits(t, 5, flags) && !IsBare(t)
    ensures Solid(Show(t), 5)
    decreases t, 0
  {
    if t.Command? {
      WordsSolid(t.av);
      WithRedirsSolid(t.av, t.redirs, flags);
    } else {
      ShowSolid(t.sub, 0, Here);
      GroupSolid(Show(t.sub));
      WithRedirsSolid(["("] + Show(t.sub) + [")"], t.redirs, flags);
    }
  }

  lemma {:induction false} BackSolid(a: Cmd, flags: Flags)
    requires FitsBack(a, flags)
    ensures Solid(Show(a), 1)
    decreases a, 7
  {
    if IsBare(a) { ShowSolid(a.sub, 1, flags); } else { ShowSolid(a, 4, flags); }
  }
}

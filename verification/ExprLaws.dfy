// What the one-pass evaluator computes: the lazy value of the precedence tree.
module ExprLaws {
  import opened Shared
  import opened Numbers
  import opened Expr
  import opened ExprTree

  // ----- the lazy value -----

  predicate Decided(k: nat, a: int) {
    (k == 0 && a != 0) || (k == 1 && a == 0)
  }

  // The right operand of a decided || or && has no part in the value.
  function Value(e: Tree, noglob: bool, env: Env): Number {
    match e
    case Bin(k, l, r) =>
      (match Value(l, noglob, env)
       case NoNumber(err) => NoNumber(err)
       case Number(a) =>
         if Decided(k, a) then Number(if k == 0 then 1 else 0)
         else
           match Value(r, k > 1 && noglob, env)
           case NoNumber(err) => NoNumber(err)
           case Number(b) => Number(CombineInt(k, a, b)))
    case Equality(op, x, y) =>
      (var i := Isa(Some(op), EQOP);
       match TermValue(x, noglob, env)
       case NoStr(err) => NoNumber(err)
       case Str(a) =>
         match TermValue(y, noglob || i == EQMATCH || i == NOTEQMATCH, env)
         case NoStr(err) => NoNumber(err)
         case Str(b) => env.sem.compare(i, a, b))
    case Num(x) =>
      match TermValue(x, noglob, env)
      case NoStr(err) => NoNumber(err)
      case Str(a) => env.sem.number(a)
  }

  function TermValue(t: Term, noglob: bool, env: Env): Str {
    match t
    case Apply(_, op, _, l, r) =>
      (match TermValue(l, noglob, env)
       case NoStr(err) => NoStr(err)
       case Str(a) =>
         match TermValue(r, noglob, env)
         case NoStr(err) => NoStr(err)
         case Str(b) => env.sem.combine(op, a, b))
    case Leaf(x) => PrimaryValue(x, noglob, env)
  }

  function PrimaryValue(x: Primary, noglob: bool, env: Env): Str {
    match x
    case Prefixed(bang, u) =>
      (match PrimaryValue(u, noglob, env)
       case NoStr(err) => NoStr(err)
       case Str(a) => env.sem.unary(bang, a))
    case Paren(e, _) =>
      (match Value(e, noglob, env)
       case NoNumber(err) => NoStr(err)
       case Number(i) => Str(env.sem.text(i)))
    case Command(words) => Str(env.sem.text(Bit(env.run(words))))
    case Empty => Str("")
    case Inquiry(kind, name) => Inquire(kind, name, env)
    case Word(w) => if noglob then Str(w) else GlobWord(w, env)
  }

  // ----- what can be skipped -----

  // The words that stand alone here are numbers: every operator and parenthesis gives one.
  predicate TermIsNumber(t: Term, noglob: bool, glob: string -> Option<string>) {
    t.Leaf? ==> PrimaryIsNumber(t.x, noglob, glob)
  }

  predicate PrimaryIsNumber(x: Primary, noglob: bool, glob: string -> Option<string>) {
    match x
    case Word(w) => (noglob && EGetN(w).Number?) || (!noglob && glob(w).Some? && EGetN(glob(w).value).Number?)
    case _ => true
  }

  // Every word expands, and those that stand alone as a number, under ! or ~ or at a shift
  // are numbers.
  predicate Skips(e: Tree, noglob: bool, glob: string -> Option<string>) {
    match e
    case Bin(k, l, r) => Skips(l, noglob, glob) && Skips(r, k > 1 && noglob, glob)
    case Equality(op, x, y) =>
      var i := Isa(Some(op), EQOP);
      TermSkips(x, noglob, glob) && TermSkips(y, noglob || i == EQMATCH || i == NOTEQMATCH, glob)
    case Num(x) => TermSkips(x, noglob, glob) && TermIsNumber(x, noglob, glob)
  }

  predicate TermSkips(t: Term, noglob: bool, glob: string -> Option<string>) {
    match t
    case Apply(_, op, _, l, r) =>
      TermSkips(l, noglob, glob) && TermSkips(r, noglob, glob)
      && (op.Shift? ==> TermIsNumber(l, noglob, glob) && TermIsNumber(r, noglob, glob))
    case Leaf(x) => PrimarySkips(x, noglob, glob)
  }

  predicate PrimarySkips(x: Primary, noglob: bool, glob: string -> Option<string>) {
    match x
    case Prefixed(_, u) => PrimarySkips(u, noglob, glob) && PrimaryIsNumber(u, noglob, glob)
    case Paren(e, _) => Skips(e, noglob, glob)
    case Word(w) => noglob || glob(w).Some?
    case _ => true
  }

  lemma PutIsNumber(n: int)
    ensures EGetN(PutN(n)) == Number(n)
  {
    PutNRoundTrip(n);
  }

  // The walk over a skipped operand succeeds exactly on these.
  lemma {:induction false} SkipsExactly(e: Tree, noglob: bool, env: Env, sh: Shifts)
    requires env.sem == Shell(sh)
    ensures Walk(e, Ignore(true, noglob), env).Number? <==> Skips(e, noglob, env.glob)
  {
    match e
    case Bin(k, l, r) =>
      SkipsExactly(l, noglob, env, sh);
      SkipsExactly(r, k > 1 && noglob, env, sh);
    case Equality(op, x, y) =>
      var i := Isa(Some(op), EQOP);
      TermSkipsExactly(x, noglob, env, sh);
      TermSkipsExactly(y, noglob || i == EQMATCH || i == NOTEQMATCH, env, sh);
    case Num(x) => TermSkipsExactly(x, noglob, env, sh);
  }

  lemma {:induction false} TermSkipsExactly(t: Term, noglob: bool, env: Env, sh: Shifts)
    requires env.sem == Shell(sh)
    ensures var r := WalkTerm(t, Ignore(true, noglob), env);
            && (r.Str? <==> TermSkips(t, noglob, env.glob))
            && (r.Str? ==> (EGetN(r.s).Number? <==> TermIsNumber(t, noglob, env.glob)))
  {
    match t
    case Apply(_, op, _, l, r) =>
      TermSkipsExactly(l, noglob, env, sh);
      TermSkipsExactly(r, noglob, env, sh);
      var a, b := WalkTerm(l, Ignore(true, noglob), env), WalkTerm(r, Ignore(true, noglob), env);
      if a.Str? && b.Str? { SkipIsNumber(op, a.s, b.s, sh); }
    case Leaf(x) => PrimarySkipsExactly(x, noglob, env, sh);
  }

  lemma SkipIsNumber(op: Op, a: string, b: string, sh: Shifts)
    ensures var r := SkipText(op, a, b, sh);
            && (r.Str? <==> (op.Shift? ==> EGetN(a).Number? && EGetN(b).Number?))
            && (r.Str? ==> EGetN(r.s).Number?)
  {
    if op.Shift? {
      if EGetN(a).Number? && EGetN(b).Number? { PutIsNumber(Arith(op, EGetN(a).n, EGetN(b).n, sh)); }
    } else {
      PutIsNumber(if op.Rel? then op.code else 0);
    }
  }

  lemma {:induction false} PrimarySkipsExactly(x: Primary, noglob: bool, env: Env, sh: Shifts)
    requires env.sem == Shell(sh)
    ensures var r := WalkPrimary(x, Ignore(true, noglob), env);
            && (r.Str? <==> PrimarySkips(x, noglob, env.glob))
            && (r.Str? ==> (EGetN(r.s).Number? <==> PrimaryIsNumber(x, noglob, env.glob)))
  {
    match x
    case Prefixed(bang, u) =>
      PrimarySkipsExactly(u, noglob, env, sh);
      var a := WalkPrimary(u, Ignore(true, noglob), env);
      if a.Str? && EGetN(a.s).Number? {
        PutIsNumber(if bang then Bit(EGetN(a.s).n == 0) else Complement(EGetN(a.s).n));
      }
    case Paren(e, _) =>
      SkipsExactly(e, noglob, env, sh);
      var a := Walk(e, Ignore(true, noglob), env);
      if a.Number? { PutIsNumber(a.n); }
    case Command(_) => EmptyIsNumber();
    case Empty => EmptyIsNumber();
    case Inquiry(_, _) => EmptyIsNumber();
    case Word(_) =>
  }

  lemma EmptyIsNumber()
    ensures EGetN("") == Number(0)
  {
  }

  // Every operand that laziness leaves out can be skipped.
  predicate Skippable(e: Tree, noglob: bool, env: Env) {
    match e
    case Bin(k, l, r) =>
      && Skippable(l, noglob, env)
      && (match Value(l, noglob, env)
          case NoNumber(_) => true
          case Number(a) =>
            if Decided(k, a) then Skips(r, false, env.glob) else Skippable(r, k > 1 && noglob, env))
    case Equality(op, x, y) =>
      var i := Isa(Some(op), EQOP);
      && TermSkippable(x, noglob, env)
      && (TermValue(x, noglob, env).Str? ==>
            TermSkippable(y, noglob || i == EQMATCH || i == NOTEQMATCH, env))
    case Num(x) => TermSkippable(x, noglob, env)
  }

  predicate TermSkippable(t: Term, noglob: bool, env: Env) {
    match t
    case Apply(_, _, _, l, r) =>
      TermSkippable(l, noglob, env) && (TermValue(l, noglob, env).Str? ==> TermSkippable(r, noglob, env))
    case Leaf(x) => PrimarySkippable(x, noglob, env)
  }

  predicate PrimarySkippable(x: Primary, noglob: bool, env: Env) {
    match x
    case Prefixed(_, u) => PrimarySkippable(u, noglob, env)
    case Paren(e, _) => Skippable(e, noglob, env)
    case _ => true
  }

  // The walk of the code has the lazy value exactly when what laziness leaves out can be
  // skipped, and else it fails.
  lemma {:induction false} WalkIsLazy(e: Tree, noglob: bool, env: Env, sh: Shifts)
    requires env.sem == Shell(sh)
    ensures Skippable(e, noglob, env) ==> Walk(e, Ignore(false, noglob), env) == Value(e, noglob, env)
    ensures !Skippable(e, noglob, env) ==> Walk(e, Ignore(false, noglob), env).NoNumber?
  {
    match e
    case Bin(k, l, r) =>
      WalkIsLazy(l, noglob, env, sh);
      match Walk(l, Ignore(false, noglob), env) {
        case NoNumber(_) =>
        case Number(a) =>
          if Decided(k, a) { SkipsExactly(r, false, env, sh); } else { WalkIsLazy(r, k > 1 && noglob, env, sh); }
      }
    case Equality(op, x, y) =>
      var i := Isa(Some(op), EQOP);
      TermIsLazy(x, noglob, env, sh);
      TermIsLazy(y, noglob || i == EQMATCH || i == NOTEQMATCH, env, sh);
    case Num(x) => TermIsLazy(x, noglob, env, sh);
  }

  lemma {:induction false} TermIsLazy(t: Term, noglob: bool, env: Env, sh: Shifts)
    requires env.sem == Shell(sh)
    ensures TermSkippable(t, noglob, env) ==> WalkTerm(t, Ignore(false, noglob), env) == TermValue(t, noglob, env)
    ensures !TermSkippable(t, noglob, env) ==> WalkTerm(t, Ignore(false, noglob), env).NoStr?
  {
    match t
    case Apply(_, _, _, l, r) => TermIsLazy(l, noglob, env, sh); TermIsLazy(r, noglob, env, sh);
    case Leaf(x) => PrimaryIsLazy(x, noglob, env, sh);
  }

  lemma {:induction false} PrimaryIsLazy(x: Primary, noglob: bool, env: Env, sh: Shifts)
    requires env.sem == Shell(sh)
    ensures PrimarySkippable(x, noglob, env) ==>
              WalkPrimary(x, Ignore(false, noglob), env) == PrimaryValue(x, noglob, env)
    ensures !PrimarySkippable(x, noglob, env) ==> WalkPrimary(x, Ignore(false, noglob), env).NoStr?
  {
    match x
    case Prefixed(_, u) => PrimaryIsLazy(u, noglob, env, sh);
    case Paren(e, _) => WalkIsLazy(e, noglob, env, sh);
    case _ =>
  }

  // An expression evaluates to x with the cursor at q exactly when it parses up to q,
  // the lazy value of its tree is x, and what laziness leaves out can be skipped.
  lemma ExpressionValue(v: seq<string>, p: nat, env: Env, sh: Shifts, x: int, q: nat)
    requires p <= |v| && env.sem == Shell(sh)
    ensures ExpInt(v, p, Ignore(false, false), 0, env) == IntAt(x, q)
            <==> (match ParseTree(v, p, 0, env.exists_)
                  case NoTree(_) => false
                  case TreeAt(e, q') => q' == q && Value(e, false, env) == Number(x) && Skippable(e, false, env))
  {
    IntRefines(v, p, Ignore(false, false), 0, env);
    match ParseTree(v, p, 0, env.exists_) {
      case NoTree(_) =>
      case TreeAt(e, _) => WalkIsLazy(e, false, env, sh);
    }
  }

  // 1 || w has the lazy value 1 whatever w is, but evaluation fails unless w is a number.
  lemma SkippedWordMatters(w: string, env: Env, sh: Shifts)
    requires env.sem == Shell(sh) && (forall x :: env.glob(x) == Some(x))
    ensures var e := Bin(0, Num(Leaf(Word("1"))), Num(Leaf(Word(w))));
            && Value(e, false, env) == Number(1)
            && (if EGetN(w).Number? then Walk(e, Ignore(false, false), env) == Number(1)
                else Walk(e, Ignore(false, false), env).NoNumber?)
  {
    var l, r := Num(Leaf(Word("1"))), Num(Leaf(Word(w)));
    assert Decimal("1") == 1 by { assert "1"[..0] == "" && IsDigit("1"[0]); }
    assert EGetN("1") == Number(1);
    assert PrimaryValue(Word("1"), false, env) == Str("1");
    assert TermValue(Leaf(Word("1")), false, env) == Str("1");
    assert Value(l, false, env) == Number(1);
    assert PrimarySkips(Word(w), false, env.glob) && TermSkips(Leaf(Word(w)), false, env.glob);
    assert TermIsNumber(Leaf(Word(w)), false, env.glob) <==> EGetN(w).Number?;
    assert Skips(r, false, env.glob) <==> EGetN(w).Number?;
    assert PrimarySkippable(Word("1"), false, env) && TermSkippable(Leaf(Word("1")), false, env);
    assert Skippable(Bin(0, l, r), false, env) <==> Skips(r, false, env.glob);
    WalkIsLazy(Bin(0, l, r), false, env, sh);
  }

  // ----- division by zero -----

  predicate ByZero(e: Error) {
    e == DivByZero || e == ModByZero
  }

  lemma {:induction false} SkippingNeverDivides(e: Tree, noglob: bool, env: Env, sh: Shifts)
    requires env.sem == Shell(sh)
    ensures var r := Walk(e, Ignore(true, noglob), env); r.NoNumber? ==> !ByZero(r.error)
  {
    match e
    case Bin(k, l, r) =>
      SkippingNeverDivides(l, noglob, env, sh);
      SkippingNeverDivides(r, noglob, env, sh);
      SkippingNeverDivides(r, false, env, sh);
    case Equality(op, x, y) =>
      SkippingTermNeverDivides(x, noglob, env, sh);
      SkippingTermNeverDivides(y, noglob, env, sh);
      SkippingTermNeverDivides(y, true, env, sh);
    case Num(x) => SkippingTermNeverDivides(x, noglob, env, sh);
  }

  lemma {:induction false} SkippingTermNeverDivides(t: Term, noglob: bool, env: Env, sh: Shifts)
    requires env.sem == Shell(sh)
    ensures var r := WalkTerm(t, Ignore(true, noglob), env); r.NoStr? ==> !ByZero(r.error)
  {
    match t
    case Apply(_, _, _, l, r) =>
      SkippingTermNeverDivides(l, noglob, env, sh);
      SkippingTermNeverDivides(r, noglob, env, sh);
    case Leaf(x) => SkippingPrimaryNeverDivides(x, noglob, env, sh);
  }

  lemma {:induction false} SkippingPrimaryNeverDivides(x: Primary, noglob: bool, env: Env, sh: Shifts)
    requires env.sem == Shell(sh)
    ensures var r := WalkPrimary(x, Ignore(true, noglob), env); r.NoStr? ==> !ByZero(r.error)
  {
    match x
    case Prefixed(_, u) => SkippingPrimaryNeverDivides(u, noglob, env, sh);
    case Paren(e, _) => SkippingNeverDivides(e, noglob, env, sh);
    case _ =>
  }

  // A division by zero is reported only when the lazy value asks for the division.
  lemma {:induction false} DivisionIsWanted(e: Tree, noglob: bool, env: Env, sh: Shifts)
    requires env.sem == Shell(sh)
    ensures var r := Walk(e, Ignore(false, noglob), env);
            r.NoNumber? && ByZero(r.error) ==> Value(e, noglob, env) == r
  {
    WalkIsLazy(e, noglob, env, sh);
    match e
    case Bin(k, l, r) =>
      WalkIsLazy(l, noglob, env, sh);
      DivisionIsWanted(l, noglob, env, sh);
      match Walk(l, Ignore(false, noglob), env) {
        case NoNumber(_) =>
        case Number(a) =>
          if Decided(k, a) { SkippingNeverDivides(r, false, env, sh); }
          else { DivisionIsWanted(r, k > 1 && noglob, env, sh); }
      }
    case Equality(op, x, y) =>
      var i := Isa(Some(op), EQOP);
      TermIsLazy(x, noglob, env, sh);
      TermDivisionIsWanted(x, noglob, env, sh);
      TermDivisionIsWanted(y, noglob || i == EQMATCH || i == NOTEQMATCH, env, sh);
    case Num(x) =>
      TermIsLazy(x, noglob, env, sh);
      TermDivisionIsWanted(x, noglob, env, sh);
  }

  lemma {:induction false} TermDivisionIsWanted(t: Term, noglob: bool, env: Env, sh: Shifts)
    requires env.sem == Shell(sh)
    ensures var r := WalkTerm(t, Ignore(false, noglob), env);
            r.NoStr? && ByZero(r.error) ==> TermValue(t, noglob, env) == r
  {
    match t
    case Apply(_, _, _, l, r) =>
      TermIsLazy(l, noglob, env, sh);
      TermIsLazy(r, noglob, env, sh);
      TermDivisionIsWanted(l, noglob, env, sh);
      TermDivisionIsWanted(r, noglob, env, sh);
    case Leaf(x) => PrimaryDivisionIsWanted(x, noglob, env, sh);
  }

  lemma {:induction false} PrimaryDivisionIsWanted(x: Primary, noglob: bool, env: Env, sh: Shifts)
    requires env.sem == Shell(sh)
    ensures var r := WalkPrimary(x, Ignore(false, noglob), env);
            r.NoStr? && ByZero(r.error) ==> PrimaryValue(x, noglob, env) == r
  {
    match x
    case Prefixed(_, u) =>
      PrimaryIsLazy(u, noglob, env, sh);
      PrimaryDivisionIsWanted(u, noglob, env, sh);
    case Paren(e, _) =>
      WalkIsLazy(e, noglob, env, sh);
      DivisionIsWanted(e, noglob, env, sh);
    case _ =>
  }
}

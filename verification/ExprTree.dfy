// The reference the one-pass evaluator is held against: parse to a tree, then evaluate
// the tree lazily.
module ExprTree {
  import opened Shared
  import opened Numbers
  import opened Expr

  // Integer-valued expressions.
  datatype Tree =
    | Bin(k: nat, l: Tree, r: Tree)                          // || && | ^ &
    | Equality(op: string, x: Term, y: Term)                 // == != =~ !~
    | Num(x: Term)

  // Text-valued expressions.
  datatype Term =
    | Apply(k: nat, op: Op, tok: string, l: Term, r: Term)
    | Leaf(x: Primary)

  datatype Primary =
    | Prefixed(bang: bool, t: Primary)                          // ! ~
    | Paren(e: Tree, close: string)
    | Command(words: seq<string>)
    | Empty                                                  // an operator where an operand is wanted
    | Inquiry(kind: char, name: string)
    | Word(w: string)

  // ----- parsing -----

  datatype TreeAt = TreeAt(tree: Tree, pos: nat) | NoTree(error: Error)

  datatype TermAt = TermAt(term: Term, pos: nat) | NoTerm(error: Error)

  datatype PrimaryAt = PrimaryAt(x: Primary, pos: nat) | NoPrimary(error: Error)

  function ParseTree(v: seq<string>, p: nat, k: nat, files: string -> bool): (r: TreeAt)
    requires p <= |v| && k <= 5
    ensures r.TreeAt? ==> p <= r.pos <= |v|
    decreases |v| - p, 12 - k
  {
    if k == 5 then ParseEquality(v, p, files)
    else
      match ParseTree(v, p, k + 1, files)
      case NoTree(e) => NoTree(e)
      case TreeAt(l, q) =>
        if At(v, q) == Some(IntOp(k)) then
          match ParseTree(v, q + 1, k, files)
          case NoTree(e) => NoTree(e)
          case TreeAt(r, q2) => TreeAt(Bin(k, l, r), q2)
        else TreeAt(l, q)
  }

  function ParseEquality(v: seq<string>, p: nat, files: string -> bool): (r: TreeAt)
    requires p <= |v|
    ensures r.TreeAt? ==> p <= r.pos <= |v|
    decreases |v| - p, 6
  {
    match ParseTerm(v, p, 0, files)
    case NoTerm(e) => NoTree(e)
    case TermAt(x, q) =>
      if Isa(At(v, q), EQOP) != 0 then
        match ParseTerm(v, q + 1, 0, files)
        case NoTerm(e) => NoTree(e)
        case TermAt(y, q2) => TreeAt(Equality(v[q], x, y), q2)
      else TreeAt(Num(x), q)
  }

  function ParseTerm(v: seq<string>, p: nat, k: nat, files: string -> bool): (r: TermAt)
    requires p <= |v| && k <= 4
    ensures r.TermAt? ==> p <= r.pos <= |v|
    decreases |v| - p, 5 - k
  {
    if k == 4 then
      match ParsePrimary(v, p, files)
      case NoPrimary(e) => NoTerm(e)
      case PrimaryAt(x, q) => TermAt(Leaf(x), q)
    else
      match ParseTerm(v, p, k + 1, files)
      case NoTerm(e) => NoTerm(e)
      case TermAt(l, q) =>
        match OpAt(v, q, k)
        case NoOp => TermAt(l, q)
        case Found(op, n) =>
          match ParseTerm(v, q + n, k, files)
          case NoTerm(e) => NoTerm(e)
          case TermAt(r, q2) => TermAt(Apply(k, op, v[q], l, r), q2)
  }

  function ParsePrimary(v: seq<string>, p: nat, files: string -> bool): (r: PrimaryAt)
    requires p <= |v|
    ensures r.PrimaryAt? ==> p <= r.pos <= |v|
    decreases |v| - p, 0
  {
    if p == |v| then NoPrimary(Syntax)
    else if v[p] == "!" || v[p] == "~" then
      match ParsePrimary(v, p + 1, files)
      case NoPrimary(e) => NoPrimary(e)
      case PrimaryAt(t, q) => PrimaryAt(Prefixed(v[p] == "!", t), q)
    else if v[p] == "(" then
      match ParseTree(v, p + 1, 0, files)
      case NoTree(e) => NoPrimary(e)
      case TreeAt(e, q) =>
        if q == |v| || First(v[q]) != ')' then NoPrimary(Syntax) else PrimaryAt(Paren(e, v[q]), q + 1)
    else if v[p] == "{" then
      match FindBrace(v, p + 1)
      case None => NoPrimary(MissingBrace)
      case Some(q) => PrimaryAt(Command(v[p + 1..q]), q + 1)
    else if Isa(Some(v[p]), ANYOP) != 0 then PrimaryAt(Empty, p)
    else if IsInquiry(v[p]) then
      if |v[p]| > 2 then NoPrimary(BadInquiry)
      else if p + 1 == |v| || (Isa(Some(v[p + 1]), ANYOP) != 0 && !files(v[p + 1])) then NoPrimary(MissingName)
      else PrimaryAt(Inquiry(v[p][1], v[p + 1]), p + 2)
    else PrimaryAt(Word(v[p]), p + 1)
  }

  // ----- the tree evaluated as the code walks it, skipping included -----

  function Walk(e: Tree, ign: Ignore, env: Env): Number {
    match e
    case Bin(k, l, r) =>
      (match Walk(l, ign, env)
       case NoNumber(err) => NoNumber(err)
       case Number(a) =>
         match Walk(r, RightMode(k, ign, a), env)
         case NoNumber(err) => NoNumber(err)
         case Number(b) => Number(CombineInt(k, a, b)))
    case Equality(op, x, y) =>
      (var i := Isa(Some(op), EQOP);
       match WalkTerm(x, ign, env)
       case NoStr(err) => NoNumber(err)
       case Str(a) =>
         match WalkTerm(y, PatternMode(i, ign), env)
         case NoStr(err) => NoNumber(err)
         case Str(b) => if ign.skip then Number(i) else env.sem.compare(i, a, b))
    case Num(x) =>
      match WalkTerm(x, ign, env)
      case NoStr(err) => NoNumber(err)
      case Str(a) => env.sem.number(a)
  }

  function WalkTerm(t: Term, ign: Ignore, env: Env): Str {
    match t
    case Apply(_, op, _, l, r) =>
      (match WalkTerm(l, ign, env)
       case NoStr(err) => NoStr(err)
       case Str(a) =>
         match WalkTerm(r, ign, env)
         case NoStr(err) => NoStr(err)
         case Str(b) => if ign.skip then env.sem.skip(op, a, b) else env.sem.combine(op, a, b))
    case Leaf(x) => WalkPrimary(x, ign, env)
  }

  function WalkPrimary(t: Primary, ign: Ignore, env: Env): Str {
    match t
    case Prefixed(bang, u) =>
      (match WalkPrimary(u, ign, env)
       case NoStr(err) => NoStr(err)
       case Str(a) => env.sem.unary(bang, a))
    case Paren(e, _) =>
      (match Walk(e, ign, env)
       case NoNumber(err) => NoStr(err)
       case Number(i) => Str(env.sem.text(i)))
    case Command(words) => Str(if ign.skip then "" else env.sem.text(Bit(env.run(words))))
    case Empty => Str("")
    case Inquiry(kind, name) => if ign.skip then Str("") else Inquire(kind, name, env)
    case Word(w) => if ign.noglob then Str(w) else GlobWord(w, env)
  }

  // The one-pass evaluator is the parser followed by the walk: same value, same
  // cursor, same error.
  lemma {:induction false} IntRefines(v: seq<string>, p: nat, ign: Ignore, k: nat, env: Env)
    requires p <= |v| && k <= 5
    ensures match ParseTree(v, p, k, env.exists_)
            case NoTree(_) => ExpInt(v, p, ign, k, env).NoInt?
            case TreeAt(e, q) => ExpInt(v, p, ign, k, env) == NumberAt(Walk(e, ign, env), q)
    decreases |v| - p, 12 - k
  {
    if k == 5 {
      EqualityRefines(v, p, ign, env);
      EqualityIsInt(v, p, ign, env);
    } else {
      IntRefines(v, p, ign, k + 1, env);
      var left := ParseTree(v, p, k + 1, env.exists_);
      if left.TreeAt? && At(v, left.pos) == Some(IntOp(k)) {
        var a := Walk(left.tree, ign, env);
        var mode := if a.Number? then RightMode(k, ign, a.n) else ign;
        IntRefines(v, left.pos + 1, mode, k, env);
        IntOperatorRefines(v, p, ign, k, env, left, a, mode);
      } else {
        NoIntOperatorRefines(v, p, ign, k, env, left);
      }
    }
  }

  lemma EqualityIsInt(v: seq<string>, p: nat, ign: Ignore, env: Env)
    requires p <= |v|
    ensures ParseTree(v, p, 5, env.exists_) == ParseEquality(v, p, env.exists_)
    ensures ExpInt(v, p, ign, 5, env) == Exp2c(v, p, ign, env)
  {
  }

  lemma NoIntOperatorRefines(v: seq<string>, p: nat, ign: Ignore, k: nat, env: Env, left: TreeAt)
    requires p <= |v| && k <= 4 && left == ParseTree(v, p, k + 1, env.exists_)
    requires left.NoTree? ==> ExpInt(v, p, ign, k + 1, env).NoInt?
    requires left.TreeAt? ==>
               && ExpInt(v, p, ign, k + 1, env) == NumberAt(Walk(left.tree, ign, env), left.pos)
               && At(v, left.pos) != Some(IntOp(k))
    ensures match ParseTree(v, p, k, env.exists_)
            case NoTree(_) => ExpInt(v, p, ign, k, env).NoInt?
            case TreeAt(e, q) => ExpInt(v, p, ign, k, env) == NumberAt(Walk(e, ign, env), q)
  {
  }

  lemma IntOperatorRefines(v: seq<string>, p: nat, ign: Ignore, k: nat, env: Env, left: TreeAt, a: Number, mode: Ignore)
    requires p <= |v| && k <= 4 && left == ParseTree(v, p, k + 1, env.exists_) && left.TreeAt?
    requires At(v, left.pos) == Some(IntOp(k)) && a == Walk(left.tree, ign, env)
    requires ExpInt(v, p, ign, k + 1, env) == NumberAt(a, left.pos)
    requires a.Number? ==> mode == RightMode(k, ign, a.n)
    requires match ParseTree(v, left.pos + 1, k, env.exists_)
             case NoTree(_) => ExpInt(v, left.pos + 1, mode, k, env).NoInt?
             case TreeAt(e, q) => ExpInt(v, left.pos + 1, mode, k, env) == NumberAt(Walk(e, mode, env), q)
    ensures match ParseTree(v, p, k, env.exists_)
            case NoTree(_) => ExpInt(v, p, ign, k, env).NoInt?
            case TreeAt(e, q) => ExpInt(v, p, ign, k, env) == NumberAt(Walk(e, ign, env), q)
  {
  }

  lemma {:induction false} EqualityRefines(v: seq<string>, p: nat, ign: Ignore, env: Env)
    requires p <= |v|
    ensures match ParseEquality(v, p, env.exists_)
            case NoTree(_) => Exp2c(v, p, ign, env).NoInt?
            case TreeAt(e, q) => Exp2c(v, p, ign, env) == NumberAt(Walk(e, ign, env), q)
    decreases |v| - p, 6
  {
    TextRefines(v, p, ign, 0, env);
    var x := ParseTerm(v, p, 0, env.exists_);
    if x.TermAt? && Isa(At(v, x.pos), EQOP) != 0 {
      TextRefines(v, x.pos + 1, PatternMode(Isa(At(v, x.pos), EQOP), ign), 0, env);
      OperandsRefine(v, p, ign, env, x, ParseTerm(v, x.pos + 1, 0, env.exists_));
    } else {
      OperandRefines(v, p, ign, env, x);
    }
  }

  lemma OperandRefines(v: seq<string>, p: nat, ign: Ignore, env: Env, x: TermAt)
    requires p <= |v| && x == ParseTerm(v, p, 0, env.exists_) && (x.TermAt? ==> Isa(At(v, x.pos), EQOP) == 0)
    requires x.NoTerm? ==> ExpText(v, p, ign, 0, env).NoText?
    requires x.TermAt? ==> ExpText(v, p, ign, 0, env) == StrAt(WalkTerm(x.term, ign, env), x.pos)
    ensures match ParseEquality(v, p, env.exists_)
            case NoTree(_) => Exp2c(v, p, ign, env).NoInt?
            case TreeAt(e, q) => Exp2c(v, p, ign, env) == NumberAt(Walk(e, ign, env), q)
  {
  }

  lemma OperandsRefine(v: seq<string>, p: nat, ign: Ignore, env: Env, x: TermAt, y: TermAt)
    requires p <= |v| && x == ParseTerm(v, p, 0, env.exists_) && x.TermAt? && Isa(At(v, x.pos), EQOP) != 0
    requires ExpText(v, p, ign, 0, env) == StrAt(WalkTerm(x.term, ign, env), x.pos)
    requires y == ParseTerm(v, x.pos + 1, 0, env.exists_)
    requires var mode := PatternMode(Isa(At(v, x.pos), EQOP), ign);
             match y
             case NoTerm(_) => ExpText(v, x.pos + 1, mode, 0, env).NoText?
             case TermAt(t, q) => ExpText(v, x.pos + 1, mode, 0, env) == StrAt(WalkTerm(t, mode, env), q)
    ensures match ParseEquality(v, p, env.exists_)
            case NoTree(_) => Exp2c(v, p, ign, env).NoInt?
            case TreeAt(e, q) => Exp2c(v, p, ign, env) == NumberAt(Walk(e, ign, env), q)
  {
    var i := Isa(At(v, x.pos), EQOP);
    var mode := PatternMode(i, ign);
    var b := if y.TermAt? then WalkTerm(y.term, mode, env) else NoStr(Syntax);
    OperandsTaken(v, p, ign, env, WalkTerm(x.term, ign, env), x.pos, b, if y.TermAt? then Some(y.pos) else None);
    OperandsParsed(v, p, env.exists_, x, y);
    if y.TermAt? { OperandsWalked(v[x.pos], x.term, y.term, ign, env); }
  }

  // What is made of the values of two operands.
  function Compared(i: int, a: Str, b: Str, ign: Ignore, env: Env): Number {
    match a
    case NoStr(err) => NoNumber(err)
    case Str(s) =>
      match b
      case NoStr(err) => NoNumber(err)
      case Str(t) => if ign.skip then Number(i) else env.sem.compare(i, s, t)
  }

  lemma OperandsTaken(v: seq<string>, p: nat, ign: Ignore, env: Env, a: Str, q: nat, b: Str, end: Option<nat>)
    requires p <= |v| && q < |v| && Isa(At(v, q), EQOP) != 0
    requires ExpText(v, p, ign, 0, env) == StrAt(a, q)
    requires var r := ExpText(v, q + 1, PatternMode(Isa(At(v, q), EQOP), ign), 0, env);
             if end.Some? then r == StrAt(b, end.value) else r.NoText?
    ensures if end.Some?
            then Exp2c(v, p, ign, env) == NumberAt(Compared(Isa(At(v, q), EQOP), a, b, ign, env), end.value)
            else Exp2c(v, p, ign, env).NoInt?
  {
  }

  lemma OperandsParsed(v: seq<string>, p: nat, files: string -> bool, x: TermAt, y: TermAt)
    requires p <= |v| && x == ParseTerm(v, p, 0, files) && x.TermAt? && Isa(At(v, x.pos), EQOP) != 0
    requires y == ParseTerm(v, x.pos + 1, 0, files)
    ensures ParseEquality(v, p, files) ==
            match y
            case NoTerm(e) => NoTree(e)
            case TermAt(t, q) => TreeAt(Equality(v[x.pos], x.term, t), q)
  {
  }

  lemma OperandsWalked(op: string, x: Term, y: Term, ign: Ignore, env: Env)
    ensures var i := Isa(Some(op), EQOP);
            Walk(Equality(op, x, y), ign, env)
            == Compared(i, WalkTerm(x, ign, env), WalkTerm(y, PatternMode(i, ign), env), ign, env)
  {
  }

  lemma {:induction false} TextRefines(v: seq<string>, p: nat, ign: Ignore, k: nat, env: Env)
    requires p <= |v| && k <= 4
    ensures match ParseTerm(v, p, k, env.exists_)
            case NoTerm(_) => ExpText(v, p, ign, k, env).NoText?
            case TermAt(t, q) => ExpText(v, p, ign, k, env) == StrAt(WalkTerm(t, ign, env), q)
    decreases |v| - p, 5 - k
  {
    if k == 4 {
      PrimaryRefines(v, p, ign, env);
      PrimaryIsText(v, p, ign, env);
    } else {
      TextRefines(v, p, ign, k + 1, env);
      var left := ParseTerm(v, p, k + 1, env.exists_);
      if left.TermAt? && OpAt(v, left.pos, k).Found? {
        var op := OpAt(v, left.pos, k);
        TextRefines(v, left.pos + op.words, ign, k, env);
        OperatorRefines(v, p, ign, k, env, left, op);
      } else {
        NoOperatorRefines(v, p, ign, k, env, left);
      }
    }
  }

  lemma PrimaryIsText(v: seq<string>, p: nat, ign: Ignore, env: Env)
    requires p <= |v|
    ensures ExpText(v, p, ign, 4, env) == Exp6(v, p, ign, env)
    ensures var x := ParsePrimary(v, p, env.exists_);
            ParseTerm(v, p, 4, env.exists_) ==
            if x.NoPrimary? then NoTerm(x.error) else TermAt(Leaf(x.x), x.pos)
    ensures forall x :: WalkTerm(Leaf(x), ign, env) == WalkPrimary(x, ign, env)
  {
  }

  lemma NoOperatorRefines(v: seq<string>, p: nat, ign: Ignore, k: nat, env: Env, left: TermAt)
    requires p <= |v| && k <= 3 && left == ParseTerm(v, p, k + 1, env.exists_)
    requires left.NoTerm? ==> ExpText(v, p, ign, k + 1, env).NoText?
    requires left.TermAt? ==>
               && ExpText(v, p, ign, k + 1, env) == StrAt(WalkTerm(left.term, ign, env), left.pos)
               && OpAt(v, left.pos, k).NoOp?
    ensures match ParseTerm(v, p, k, env.exists_)
            case NoTerm(_) => ExpText(v, p, ign, k, env).NoText?
            case TermAt(t, q) => ExpText(v, p, ign, k, env) == StrAt(WalkTerm(t, ign, env), q)
  {
  }

  lemma OperatorRefines(v: seq<string>, p: nat, ign: Ignore, k: nat, env: Env, left: TermAt, op: Found)
    requires p <= |v| && k <= 3
    requires left == ParseTerm(v, p, k + 1, env.exists_) && left.TermAt? && op == OpAt(v, left.pos, k) && op.Found?
    requires ExpText(v, p, ign, k + 1, env) == StrAt(WalkTerm(left.term, ign, env), left.pos)
    requires match ParseTerm(v, left.pos + op.words, k, env.exists_)
             case NoTerm(_) => ExpText(v, left.pos + op.words, ign, k, env).NoText?
             case TermAt(t, q) =>
               ExpText(v, left.pos + op.words, ign, k, env) == StrAt(WalkTerm(t, ign, env), q)
    ensures match ParseTerm(v, p, k, env.exists_)
            case NoTerm(_) => ExpText(v, p, ign, k, env).NoText?
            case TermAt(t, q) => ExpText(v, p, ign, k, env) == StrAt(WalkTerm(t, ign, env), q)
  {
    var right := ParseTerm(v, left.pos + op.words, k, env.exists_);
    var a := WalkTerm(left.term, ign, env);
    var b := if right.TermAt? then WalkTerm(right.term, ign, env) else NoStr(Syntax);
    OperatorTaken(v, p, ign, k, env, a, left.pos, op, b, if right.TermAt? then Some(right.pos) else None);
    OperatorParsed(v, p, k, env.exists_, left, op, right);
    if right.TermAt? { OperatorWalked(k, op.op, v[left.pos], left.term, right.term, ign, env); }
  }

  // What an operator makes of the values of its operands.
  function Combined(op: Op, a: Str, b: Str, ign: Ignore, env: Env): Str {
    match a
    case NoStr(err) => NoStr(err)
    case Str(s) =>
      match b
      case NoStr(err) => NoStr(err)
      case Str(t) => if ign.skip then env.sem.skip(op, s, t) else env.sem.combine(op, s, t)
  }

  lemma OperatorTaken(v: seq<string>, p: nat, ign: Ignore, k: nat, env: Env, a: Str, q: nat, op: Found, b: Str,
          end: Option<nat>)
    requires p <= |v| && k <= 3 && q <= |v| && op == OpAt(v, q, k) && op.Found?
    requires ExpText(v, p, ign, k + 1, env) == StrAt(a, q)
    requires var r := ExpText(v, q + op.words, ign, k, env); if end.Some? then r == StrAt(b, end.value) else r.NoText?
    ensures if end.Some? then ExpText(v, p, ign, k, env) == StrAt(Combined(op.op, a, b, ign, env), end.value)
            else ExpText(v, p, ign, k, env).NoText?
  {
  }

  lemma OperatorParsed(v: seq<string>, p: nat, k: nat, files: string -> bool, left: TermAt, op: Found, right: TermAt)
    requires p <= |v| && k <= 3 && left == ParseTerm(v, p, k + 1, files) && left.TermAt?
    requires op == OpAt(v, left.pos, k) && op.Found? && right == ParseTerm(v, left.pos + op.words, k, files)
    ensures ParseTerm(v, p, k, files) ==
            match right
            case NoTerm(e) => NoTerm(e)
            case TermAt(r, q) => TermAt(Apply(k, op.op, v[left.pos], left.term, r), q)
  {
  }

  lemma OperatorWalked(k: nat, op: Op, tok: string, l: Term, r: Term, ign: Ignore, env: Env)
    ensures WalkTerm(Apply(k, op, tok, l, r), ign, env)
         == Combined(op, WalkTerm(l, ign, env), WalkTerm(r, ign, env), ign, env)
  {
  }

  lemma {:induction false} PrimaryRefines(v: seq<string>, p: nat, ign: Ignore, env: Env)
    requires p <= |v|
    ensures match ParsePrimary(v, p, env.exists_)
            case NoPrimary(_) => Exp6(v, p, ign, env).NoText?
            case PrimaryAt(t, q) => Exp6(v, p, ign, env) == StrAt(WalkPrimary(t, ign, env), q)
    decreases |v| - p, 0
  {
    if p == |v| {
    } else if v[p] == "!" || v[p] == "~" {
      PrimaryRefines(v, p + 1, ign, env);
    } else if v[p] == "(" {
      IntRefines(v, p + 1, ign, 0, env);
    }
  }

  // Where evaluation succeeds, the cursor depends on the words alone.
  lemma CursorIgnoresValues(v: seq<string>, p: nat, a: Ignore, b: Ignore, k: nat, env: Env, env': Env)
    requires p <= |v| && k <= 5 && env.exists_ == env'.exists_
    requires ExpInt(v, p, a, k, env).IntAt? && ExpInt(v, p, b, k, env').IntAt?
    ensures ExpInt(v, p, a, k, env).pos == ExpInt(v, p, b, k, env').pos
  {
    IntRefines(v, p, a, k, env);
    IntRefines(v, p, b, k, env');
  }
}

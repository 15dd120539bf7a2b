// What the operators of expressions compute, stated on numbers and on words
// (bin/csh/exp.c: exp0 ... exp6).
module ExprMeaning {
  import opened Shared
  import opened Numbers
  import opened Expr
  import opened ExprTree
  import opened ExprGrammar
  import ExprLaws
  import G = GlobMatch
  import GlobMeaning

  // ----- bits -----

  // Bit i of a number in two's complement.
  predicate BitOf(n: int, i: nat)
    decreases i
  {
    if i == 0 then n % 2 == 1 else BitOf(n / 2, i - 1)
  }

  lemma {:induction false} BitsCombine(op: BitOp, a: int, b: int, i: nat)
    ensures BitOf(Bitwise(op, a, b), i) <==>
            match op
            case OrBits => BitOf(a, i) || BitOf(b, i)
            case XorBits => BitOf(a, i) != BitOf(b, i)
            case AndBits => BitOf(a, i) && BitOf(b, i)
    decreases i
  {
    var r := Bitwise(op, a, b);
    if (a == 0 || a == -1) && (b == 0 || b == -1) {
      SameBits(a, i);
      SameBits(b, i);
      SameBits(r, i);
    } else {
      assert r / 2 == Bitwise(op, a / 2, b / 2);
      if i > 0 { BitsCombine(op, a / 2, b / 2, i - 1); }
    }
  }

  lemma {:induction false} SameBits(n: int, i: nat)
    requires n == 0 || n == -1
    ensures BitOf(n, i) <==> n == -1
    decreases i
  {
    if i > 0 { SameBits(n / 2, i - 1); }
  }

  lemma {:induction false} BitsFlip(n: int, i: nat)
    ensures BitOf(Complement(n), i) <==> !BitOf(n, i)
    decreases i
  {
    if i > 0 {
      assert Complement(n) / 2 == Complement(n / 2);
      BitsFlip(n / 2, i - 1);
    }
  }

  // ----- what an operator makes of two numbers -----

  predicate Truth(r: int, holds: bool) {
    r == if holds then 1 else 0
  }

  // The quotient is rounded toward zero: the remainder has the sign of the dividend.
  predicate Divides(x: int, y: int, q: int, m: int) {
    && x == q * y + m && (if m < 0 then -m else m) < (if y < 0 then -y else y)
    && (m == 0 || (m < 0 <==> x < 0))
  }

  ghost predicate Computes(op: seq<string>, x: int, y: int, r: int, sh: Shifts) {
    if op == ["+"] then r == x + y
    else if op == ["-"] then r + y == x
    else if op == ["*"] then r == x * y
    else if op == ["/"] then exists m :: Divides(x, y, r, m)
    else if op == ["%"] then exists q :: Divides(x, y, q, r)
    else if op == ["<"] then Truth(r, x < y)
    else if op == [">"] then Truth(r, x > y)
    else if op == ["<", "="] then Truth(r, x <= y)
    else if op == [">", "="] then Truth(r, x >= y)
    else if op == ["<<"] then r == sh.left(x, y)
    else if op == [">>"] then r == sh.right(x, y)
    else if op == ["||"] then Truth(r, x != 0 || y != 0)
    else if op == ["&&"] then Truth(r, x != 0 && y != 0)
    else if op == ["|"] then forall i: nat :: BitOf(r, i) <==> BitOf(x, i) || BitOf(y, i)
    else if op == ["^"] then forall i: nat :: BitOf(r, i) <==> BitOf(x, i) != BitOf(y, i)
    else if op == ["&"] then forall i: nat :: BitOf(r, i) <==> BitOf(x, i) && BitOf(y, i)
    else false
  }

  lemma DivisionComputes(x: int, y: int)
    requires y != 0
    ensures Divides(x, y, TruncDiv(x, y), TruncMod(x, y))
  {
    var q := TruncDiv(x, y);
    if x >= 0 {
      assert x == y * (x / y) + x % y && 0 <= x % y;
      assert TruncMod(x, y) == x % y;
    } else {
      assert -x == y * (-x / y) + -x % y && 0 <= -x % y;
      assert y * q == -(y * (-x / y));
      assert TruncMod(x, y) == -(-x % y);
    }
  }

  // An operator on text reads both sides as numbers and leaves the number computed; a
  // division by zero is reported.
  lemma TextOperator(op: Op, tok: string, a: string, b: string, x: int, y: int, sh: Shifts)
    requires PlainOp(op, tok) && EGetN(a) == Number(x) && EGetN(b) == Number(y)
    ensures var r := CombineText(op, a, b, sh);
            if (tok == "/" || tok == "%") && y == 0 then r == NoStr(if tok == "/" then DivByZero else ModByZero)
            else r.Str? && EGetN(r.s).Number? && Computes(OpWords(op, tok), x, y, EGetN(r.s).n, sh)
  {
    if !(IsDivision(op) && y == 0) {
      ExprLaws.PutIsNumber(Arith(op, x, y, sh));
      if IsDivision(op) { DivisionComputes(x, y); }
    }
    TokenIs(op, tok);
  }

  // The spelling of the operators on text.
  lemma TokenIs(op: Op, tok: string)
    requires PlainOp(op, tok)
    ensures match op
            case Rel(code) =>
              OpWords(op, tok) == if code == GTR then [">"] else if code == GTR + 1 then [">", "="]
                                  else if code == LSS then ["<"] else ["<", "="]
            case Shift(left) => OpWords(op, tok) == [if left then "<<" else ">>"]
            case Sum(plus) => OpWords(op, tok) == [if plus then "+" else "-"]
            case Product(sign) =>
              OpWords(op, tok) == [tok] && (tok == "*" || tok == "/" || tok == "%") && tok == [sign]
  {
    if |tok| == 1 { assert tok == [tok[0]]; } else { assert tok == [tok[0], tok[1]]; }
    match op
    case Rel(code) => assert tok == if code == LSS || code == LSS + 1 then "<" else ">";
    case Shift(left) => assert tok == if left then "<<" else ">>";
    case Sum(plus) => assert tok == if plus then "+" else "-";
    case Product(sign) => assert tok == if sign == '*' then "*" else if sign == '/' then "/" else "%";
  }

  lemma IntOperator(k: nat, x: int, y: int, sh: Shifts)
    requires k <= 4
    ensures Computes([IntOp(k)], x, y, CombineInt(k, x, y), sh)
  {
    IntOpIs(k);
    var r := CombineInt(k, x, y);
    if k == 2 {
      forall i: nat ensures BitOf(r, i) <==> BitOf(x, i) || BitOf(y, i) { BitsCombine(OrBits, x, y, i); }
    } else if k == 3 {
      forall i: nat ensures BitOf(r, i) <==> BitOf(x, i) != BitOf(y, i) { BitsCombine(XorBits, x, y, i); }
    } else if k == 4 {
      forall i: nat ensures BitOf(r, i) <==> BitOf(x, i) && BitOf(y, i) { BitsCombine(AndBits, x, y, i); }
    }
  }

  lemma IntOpIs(k: nat)
    requires k <= 4
    ensures IntOp(k) ==
            if k == 0 then "||" else if k == 1 then "&&" else if k == 2 then "|" else if k == 3 then "^" else "&"
  {
    assert ["||", "&&", "|", "^", "&"][k] == IntOp(k);
  }

  // ! is 1 for zero and 0 for everything else, ~ flips all bits.
  lemma UnaryOperator(bang: bool, a: string, x: int)
    requires EGetN(a) == Number(x)
    ensures var r := Unary(bang, a);
            && r.Str? && EGetN(r.s).Number?
            && (bang ==> Truth(EGetN(r.s).n, x == 0))
            && (!bang ==> forall i: nat :: BitOf(EGetN(r.s).n, i) <==> !BitOf(x, i))
  {
    ExprLaws.PutIsNumber(if bang then Bit(x == 0) else Complement(x));
    forall i: nat ensures BitOf(Complement(x), i) <==> !BitOf(x, i) { BitsFlip(x, i); }
  }

  // == and != compare the words, =~ and !~ match the first against the second as a pattern.
  lemma Comparison(op: string, a: string, b: string)
    requires op == "==" || op == "!="
    ensures Compare(Isa(Some(op), EQOP), a, b).Number?
    ensures Truth(Compare(Isa(Some(op), EQOP), a, b).n, if op == "==" then a == b else a != b)
  {
  }

  lemma PatternComparison(op: string, a: string, p: string)
    requires (op == "=~" || op == "!~") && GlobMeaning.Clean(a) && GlobMeaning.Plain(p) && First(p) != '^'
    ensures var r := Compare(Isa(Some(op), EQOP), a, p);
            var ts := GlobMeaning.Toks(p).value;
            if GlobMeaning.Run(a, ts) == G.Overrun then r == NoNumber(MatchFailed(G.Overrun))
            else
              var holds := GlobMeaning.Matches(a, GlobMeaning.Tail(ts));
              r.Number? && Truth(r.n, if op == "=~" then holds else !holds)
  {
    GlobMeaning.GMatchPlain(a, p);
    GlobMeaning.PatternMatches(a, p);
  }

  // ----- operators between operands -----

  datatype Oper = Between(k: nat) | Equal(w: string) | OnText(op: Op, tok: string)

  predicate IsOper(o: Oper) {
    match o
    case Between(k) => k <= 4
    case Equal(w) => w == "==" || w == "!=" || w == "=~" || w == "!~"
    case OnText(op, tok) => PlainOp(op, tok)
  }

  function Spelled(o: Oper): seq<string>
    requires IsOper(o)
  {
    match o
    case Between(k) => [IntOp(k)]
    case Equal(w) => [w]
    case OnText(op, tok) => OpWords(op, tok)
  }

  // These are all the spellings.
  lemma SpelledAs(ops: seq<string>) returns (o: Oper)
    requires ops in {["||"], ["&&"], ["|"], ["^"], ["&"], ["=="], ["!="], ["=~"], ["!~"], ["<"], [">"], ["<", "="],
                     [">", "="], ["<<"], [">>"], ["+"], ["-"], ["*"], ["/"], ["%"]}
    ensures IsOper(o) && Spelled(o) == ops
  {
    var tok := ops[0];
    if |ops| == 2 {
      o := OnText(Rel(if tok == "<" then LSS + 1 else GTR + 1), tok);
    } else if tok == "<" || tok == ">" {
      o := OnText(Rel(if tok == "<" then LSS else GTR), tok);
    } else if tok == "<<" || tok == ">>" {
      o := OnText(Shift(tok == "<<"), tok);
    } else if tok == "+" || tok == "-" {
      o := OnText(Sum(tok == "+"), tok);
    } else if tok == "*" || tok == "/" || tok == "%" {
      o := OnText(Product(tok[0]), tok);
    } else if tok == "==" || tok == "!=" || tok == "=~" || tok == "!~" {
      o := Equal(tok);
    } else {
      var k :=
        if tok == "||" then 0 else if tok == "&&" then 1 else if tok == "|" then 2 else if tok == "^" then 3 else 4;
      IntOpIs(k);
      o := Between(k);
    }
  }

  // How strongly an operator binds.
  function Strength(ops: seq<string>): nat {
    if ops == ["||"] then 0
    else if ops == ["&&"] then 1
    else if ops == ["|"] then 2
    else if ops == ["^"] then 3
    else if ops == ["&"] then 4
    else if ops == ["=="] || ops == ["!="] || ops == ["=~"] || ops == ["!~"] then 5
    else if ops == ["<"] || ops == [">"] || ops == ["<", "="] || ops == [">", "="] then 6
    else if ops == ["<<"] || ops == [">>"] then 7
    else if ops == ["+"] || ops == ["-"] then 8
    else 9
  }

  lemma StrengthIs(o: Oper)
    requires IsOper(o)
    ensures Strength(Spelled(o)) ==
            match o
            case Between(k) => k
            case Equal(_) => 5
            case OnText(op, _) => 6 + OpLevel(op)
  {
    match o
    case Between(k) => IntOpIs(k);
    case Equal(_) =>
    case OnText(op, tok) => TokenIs(op, tok);
  }

  function One(w: string): Tree {
    Num(Leaf(Word(w)))
  }

  function Join(o: Oper, l: Tree, r: Tree): Tree
    requires IsOper(o) && (o.Between? || (l.Num? && r.Num?))
  {
    match o
    case Between(k) => Bin(k, l, r)
    case Equal(w) => Equality(w, l.x, r.x)
    case OnText(op, tok) => Num(Apply(OpLevel(op), op, tok, l.x, r.x))
  }

  // A tree that may stand as the operand of an operator that binds less strongly than s.
  predicate Operand(t: Tree, s: nat) {
    && Plain(t) && Shaped(t, if s <= 5 then s else 5)
    && (s > 5 ==> t.Num? && TermShaped(t.x, if s <= 10 then s - 6 else 4))
  }

  lemma OneIsOperand(w: string, s: nat)
    requires PlainWord(w) && s <= 10
    ensures Operand(One(w), s) && Words(One(w)) == [w]
  {
    assert PrimaryWords(Word(w)) == [w] && TermWords(Leaf(Word(w))) == [w];
    assert PlainPrimary(Word(w)) && PlainTerm(Leaf(Word(w)));
    assert PrimaryShaped(Word(w)) && TermShaped(Leaf(Word(w)), 0);
  }

  lemma JoinIsOperand(o: Oper, l: Tree, r: Tree, s: nat)
    requires IsOper(o) && s <= Strength(Spelled(o))
    requires Operand(l, Strength(Spelled(o)) + 1) && Operand(r, if o.Equal? then 6 else Strength(Spelled(o)))
    ensures (o.Between? || (l.Num? && r.Num?)) && Operand(Join(o, l, r), s)
    ensures Words(Join(o, l, r)) == Words(l) + Spelled(o) + Words(r)
  {
    StrengthIs(o);
    var t := Join(o, l, r);
    if o.OnText? { OnTextOperand(o.op, o.tok, l.x, r.x, s); }
  }

  lemma OnTextOperand(op: Op, tok: string, l: Term, r: Term, s: nat)
    requires PlainOp(op, tok) && s <= 6 + OpLevel(op) && PlainTerm(l) && PlainTerm(r)
    requires TermShaped(l, OpLevel(op) + 1) && TermShaped(r, OpLevel(op))
    ensures Operand(Num(Apply(OpLevel(op), op, tok, l, r)), s)
    ensures Words(Num(Apply(OpLevel(op), op, tok, l, r))) == TermWords(l) + OpWords(op, tok) + TermWords(r)
  {
    var t := Apply(OpLevel(op), op, tok, l, r);
    assert PlainTerm(t) && TermShaped(t, 0);
  }

  // The words of a plain tree parse to it.
  lemma WholeParsed(t: Tree, env: Env)
    requires Operand(t, 0)
    ensures ParseTree(Words(t), 0, 0, env.exists_) == TreeAt(t, |Words(t)|)
  {
    var v := Words(t);
    assert Reads(v, 0, v) && Stops(v, |v|, 0);
    TreeIsRead(v, 0, t, 0, env);
  }

  // Of two operators the one on the right takes the operand between them when it binds as
  // strongly as the one on the left, or more so.
  lemma BindsRight(a: string, o: Oper, b: string, p: Oper, c: string, env: Env)
    requires PlainWord(a) && PlainWord(b) && PlainWord(c) && IsOper(o) && IsOper(p) && !(o.Equal? && p.Equal?)
    requires Strength(Spelled(o)) <= Strength(Spelled(p))
    ensures o.Between? || p.OnText?
    ensures var t := Join(p, One(b), One(c));
            ParseTree([a] + Spelled(o) + ([b] + Spelled(p) + [c]), 0, 0, env.exists_)
            == TreeAt(Join(o, One(a), t), 3 + |Spelled(o)| + |Spelled(p)|)
  {
    var s, u := Strength(Spelled(o)), Strength(Spelled(p));
    StrengthIs(o);
    StrengthIs(p);
    OneIsOperand(a, s + 1);
    OneIsOperand(b, u + 1);
    OneIsOperand(c, if p.Equal? then 6 else u);
    var t := Join(p, One(b), One(c));
    JoinIsOperand(p, One(b), One(c), if o.Equal? then 6 else s);
    JoinIsOperand(o, One(a), t, 0);
    WholeParsed(Join(o, One(a), t), env);
  }

  // And the one on the left takes it when it binds more strongly.
  lemma BindsLeft(a: string, o: Oper, b: string, p: Oper, c: string, env: Env)
    requires PlainWord(a) && PlainWord(b) && PlainWord(c) && IsOper(o) && IsOper(p)
    requires Strength(Spelled(o)) > Strength(Spelled(p))
    ensures p.Between? || o.OnText?
    ensures var t := Join(o, One(a), One(b));
            ParseTree([a] + Spelled(o) + [b] + Spelled(p) + [c], 0, 0, env.exists_)
            == TreeAt(Join(p, t, One(c)), 3 + |Spelled(o)| + |Spelled(p)|)
  {
    var s, u := Strength(Spelled(o)), Strength(Spelled(p));
    StrengthIs(o);
    StrengthIs(p);
    OneIsOperand(a, s + 1);
    OneIsOperand(b, if o.Equal? then 6 else s);
    OneIsOperand(c, if p.Equal? then 6 else u);
    var t := Join(o, One(a), One(b));
    JoinIsOperand(o, One(a), One(b), u + 1);
    JoinIsOperand(p, t, One(c), 0);
    WholeParsed(Join(p, t, One(c)), env);
  }

  // ----- words of numbers -----

  lemma NumberIsPlain(n: int)
    ensures PlainWord(PutN(n)) && EGetN(PutN(n)) == Number(n)
  {
    ExprLaws.PutIsNumber(n);
    PutNRoundTrip(n);
    PutNatRoundTrip(if n < 0 then -n else n);
    var w := PutN(n);
    if n < 0 { assert w[1..] == PutNat(-n) && w[1] == PutNat(-n)[0]; }
    assert IsDigit(w[0]) || (w[0] == '-' && |w| > 1 && IsDigit(w[1]));
  }

  // The words that are numbers: as getn reads them, but without a + in front.
  lemma NumberOf(cp: string, n: int)
    ensures EGetN(cp) == Number(n) <==>
            (cp == "" && n == 0)
            || exists minus, k: nat, m: nat :: Spells(cp, false, minus, k, m) && n == Signed(minus, m)
  {
    NumberText(cp, n);
    if EGetN(cp) == Number(n) && cp != "" {
      var plus, minus, k, m := ReadIsSpelled(cp, n);
    }
    if minus, k: nat, m: nat :| Spells(cp, false, minus, k, m) && n == Signed(minus, m) {
      SpelledIsRead(cp, false, minus, k, m);
      Begun(cp, minus, k, m);
    }
  }

  lemma Begun(cp: string, minus: bool, k: nat, m: nat)
    requires Spells(cp, false, minus, k, m)
    ensures cp != "" && (cp[0] == '-' || IsDigit(cp[0]))
  {
    PutNatRoundTrip(m);
    ZerosAdd(k, PutNat(m));
    var ds := Zeros(k) + PutNat(m);
    assert ds != "" && IsDigit(ds[0]);
  }

  // An operator between two words.
  lemma TwoParsed(a: string, o: Oper, b: string, env: Env)
    requires PlainWord(a) && PlainWord(b) && IsOper(o)
    ensures ParseTree([a] + Spelled(o) + [b], 0, 0, env.exists_)
         == TreeAt(Join(o, One(a), One(b)), 2 + |Spelled(o)|)
  {
    var s := Strength(Spelled(o));
    StrengthIs(o);
    OneIsOperand(a, s + 1);
    OneIsOperand(b, if o.Equal? then 6 else s);
    JoinIsOperand(o, One(a), One(b), 0);
    WholeParsed(Join(o, One(a), One(b)), env);
  }

  lemma OneWalks(w: string, skip: bool, env: Env, sh: Shifts)
    requires env.sem == Shell(sh) && env.glob(w) == Some(w)
    ensures WalkTerm(Leaf(Word(w)), Ignore(skip, false), env) == Str(w)
    ensures Walk(One(w), Ignore(skip, false), env) == EGetN(w)
  {
    assert WalkPrimary(Word(w), Ignore(skip, false), env) == Str(w);
  }

  // Two numbers with an operator between them evaluate to what it computes, with the cursor
  // behind them; a division by zero is reported.
  lemma NumbersCompute(x: int, o: Oper, y: int, env: Env, sh: Shifts)
    requires IsOper(o) && !o.Equal? && env.sem == Shell(sh)
    requires env.glob(PutN(x)) == Some(PutN(x)) && env.glob(PutN(y)) == Some(PutN(y))
    ensures var v := [PutN(x)] + Spelled(o) + [PutN(y)];
            var r := ExpInt(v, 0, Ignore(false, false), 0, env);
            if y == 0 && Spelled(o) == ["/"] then r == NoInt(DivByZero)
            else if y == 0 && Spelled(o) == ["%"] then r == NoInt(ModByZero)
            else r.IntAt? && r.pos == |v| && Computes(Spelled(o), x, y, r.n, sh)
  {
    var a, b := PutN(x), PutN(y);
    NumberIsPlain(x);
    NumberIsPlain(y);
    OperEvaluated(a, o, b, env);
    if o.Between? {
      BetweenComputes(a, b, o.k, x, y, env, sh);
    } else {
      TokenIs(o.op, o.tok);
      TextWalks(o.op, o.tok, a, b, env, sh);
      TextOperator(o.op, o.tok, a, b, x, y, sh);
    }
  }

  lemma OperEvaluated(a: string, o: Oper, b: string, env: Env)
    requires PlainWord(a) && PlainWord(b) && IsOper(o)
    ensures ExpInt([a] + Spelled(o) + [b], 0, Ignore(false, false), 0, env) ==
            NumberAt(Walk(Join(o, One(a), One(b)), Ignore(false, false), env), 2 + |Spelled(o)|)
  {
    TwoParsed(a, o, b, env);
    IntRefines([a] + Spelled(o) + [b], 0, Ignore(false, false), 0, env);
  }

  lemma BetweenComputes(a: string, b: string, k: nat, x: int, y: int, env: Env, sh: Shifts)
    requires k <= 4 && env.sem == Shell(sh) && env.glob(a) == Some(a) && env.glob(b) == Some(b)
    requires EGetN(a) == Number(x) && EGetN(b) == Number(y)
    ensures var r := Walk(Join(Between(k), One(a), One(b)), Ignore(false, false), env);
            r.Number? && Computes([IntOp(k)], x, y, r.n, sh)
  {
    OneWalks(a, false, env, sh);
    OneWalks(b, false, env, sh);
    OneWalks(b, true, env, sh);
    IntOperator(k, x, y, sh);
  }

  lemma TextWalks(op: Op, tok: string, a: string, b: string, env: Env, sh: Shifts)
    requires env.sem == Shell(sh) && env.glob(a) == Some(a) && env.glob(b) == Some(b)
    ensures var t := Apply(OpLevel(op), op, tok, Leaf(Word(a)), Leaf(Word(b)));
            Walk(Num(t), Ignore(false, false), env) ==
            (match CombineText(op, a, b, sh)
             case NoStr(e) => NoNumber(e)
             case Str(s) => EGetN(s))
  {
    OneWalks(a, false, env, sh);
    OneWalks(b, false, env, sh);
    var t := Apply(OpLevel(op), op, tok, Leaf(Word(a)), Leaf(Word(b)));
    assert WalkTerm(t, Ignore(false, false), env) == CombineText(op, a, b, sh);
  }

  // Two words compared: == and != say whether they are the same, and what =~ and !~ say is
  // what the pattern on the right means, which is not expanded to file names.
  lemma WordsCompare(a: string, w: string, b: string, env: Env, sh: Shifts)
    requires PlainWord(a) && PlainWord(b) && IsOper(Equal(w)) && env.sem == Shell(sh) && env.glob(a) == Some(a)
    requires w == "==" || w == "!=" ==> env.glob(b) == Some(b)
    requires w == "=~" || w == "!~" ==> GlobMeaning.Clean(a) && GlobMeaning.Plain(b) && First(b) != '^'
    ensures var r := ExpInt([a, w, b], 0, Ignore(false, false), 0, env);
            if w == "==" || w == "!=" then r.IntAt? && r.pos == 3 && Truth(r.n, if w == "==" then a == b else a != b)
            else
              var ts := GlobMeaning.Toks(b).value;
              if GlobMeaning.Run(a, ts) == G.Overrun then r == NoInt(MatchFailed(G.Overrun))
              else
                var holds := GlobMeaning.Matches(a, GlobMeaning.Tail(ts));
                r.IntAt? && r.pos == 3 && Truth(r.n, if w == "=~" then holds else !holds)
  {
    var v := [a, w, b];
    assert [a] + Spelled(Equal(w)) + [b] == v;
    TwoParsed(a, Equal(w), b, env);
    IntRefines(v, 0, Ignore(false, false), 0, env);
    EqualWalks(a, w, b, env, sh);
    if w == "==" || w == "!=" { Comparison(w, a, b); } else { PatternComparison(w, a, b); }
  }

  lemma EqualWalks(a: string, w: string, b: string, env: Env, sh: Shifts)
    requires IsOper(Equal(w)) && env.sem == Shell(sh) && env.glob(a) == Some(a)
    requires w == "==" || w == "!=" ==> env.glob(b) == Some(b)
    ensures Walk(Equality(w, Leaf(Word(a)), Leaf(Word(b))), Ignore(false, false), env)
         == Compare(Isa(Some(w), EQOP), a, b)
  {
    var mode := PatternMode(Isa(Some(w), EQOP), Ignore(false, false));
    OneWalks(a, false, env, sh);
    assert WalkPrimary(Word(b), mode, env) == Str(b);
    assert WalkTerm(Leaf(Word(b)), mode, env) == Str(b);
  }

  // A sign in front of a number.
  lemma SignComputes(bang: bool, x: int, env: Env, sh: Shifts)
    requires env.sem == Shell(sh) && env.glob(PutN(x)) == Some(PutN(x))
    ensures var r := ExpInt([if bang then "!" else "~", PutN(x)], 0, Ignore(false, false), 0, env);
            && r.IntAt? && r.pos == 2 && (bang ==> Truth(r.n, x == 0))
            && (!bang ==> forall i: nat :: BitOf(r.n, i) <==> !BitOf(x, i))
  {
    var u := Prefixed(bang, Word(PutN(x)));
    NumberIsPlain(x);
    PrimaryParsed(u, env);
    IntRefines(PrimaryWords(u), 0, Ignore(false, false), 0, env);
    assert PrimaryWords(u) == [if bang then "!" else "~", PutN(x)];
    assert WalkPrimary(Word(PutN(x)), Ignore(false, false), env) == Str(PutN(x));
    PrimaryWalks(u, env, sh);
    UnaryOperator(bang, PutN(x), x);
  }

  lemma PrimaryParsed(u: Primary, env: Env)
    requires PlainPrimary(u) && PrimaryShaped(u)
    ensures ParseTree(PrimaryWords(u), 0, 0, env.exists_) == TreeAt(Num(Leaf(u)), |PrimaryWords(u)|)
  {
    var t := Num(Leaf(u));
    assert PlainTerm(Leaf(u)) && TermShaped(Leaf(u), 0) && TermWords(Leaf(u)) == PrimaryWords(u);
    assert Operand(t, 0) && Words(t) == PrimaryWords(u);
    WholeParsed(t, env);
  }

  lemma PrimaryWalks(u: Primary, env: Env, sh: Shifts)
    requires env.sem == Shell(sh)
    ensures Walk(Num(Leaf(u)), Ignore(false, false), env) ==
            match WalkPrimary(u, Ignore(false, false), env)
            case NoStr(e) => NoNumber(e)
            case Str(s) => EGetN(s)
  {
    assert WalkTerm(Leaf(u), Ignore(false, false), env) == WalkPrimary(u, Ignore(false, false), env);
  }

  // A command in braces is 1 when it succeeds, a file inquiry when the file is what is asked.
  lemma CommandComputes(words: seq<string>, env: Env, sh: Shifts)
    requires "}" !in words && env.sem == Shell(sh)
    ensures var r := ExpInt(["{"] + words + ["}"], 0, Ignore(false, false), 0, env);
            r.IntAt? && r.pos == |words| + 2 && Truth(r.n, env.run(words))
  {
    var u := Command(words);
    PrimaryParsed(u, env);
    IntRefines(PrimaryWords(u), 0, Ignore(false, false), 0, env);
    PrimaryWalks(u, env, sh);
    ExprLaws.PutIsNumber(Bit(env.run(words)));
  }

  lemma InquiryComputes(kind: char, name: string, env: Env, sh: Shifts)
    requires kind in "erwxfdzopls" && Isa(Some(name), ANYOP) == 0 && env.glob(name).Some? && env.sem == Shell(sh)
    ensures var r := ExpInt([['-', kind], name], 0, Ignore(false, false), 0, env);
            r.IntAt? && r.pos == 2 && Truth(r.n, env.test(kind, env.glob(name).value))
  {
    var u := Inquiry(kind, name);
    PrimaryParsed(u, env);
    IntRefines(PrimaryWords(u), 0, Ignore(false, false), 0, env);
    PrimaryWalks(u, env, sh);
    ExprLaws.PutIsNumber(Bit(env.test(kind, env.glob(name).value)));
  }

  // Parentheses take the value of what they hold.
  lemma ParensCompute(t: Tree, env: Env, sh: Shifts)
    requires Operand(t, 0) && env.sem == Shell(sh)
    ensures var inner := ExpInt(Words(t), 0, Ignore(false, false), 0, env);
            var r := ExpInt(["("] + Words(t) + [")"], 0, Ignore(false, false), 0, env);
            if inner.IntAt? then r == IntAt(inner.n, |Words(t)| + 2) else r == inner
  {
    var u := Paren(t, ")");
    WholeParsed(t, env);
    IntRefines(Words(t), 0, Ignore(false, false), 0, env);
    PrimaryParsed(u, env);
    IntRefines(PrimaryWords(u), 0, Ignore(false, false), 0, env);
    PrimaryWalks(u, env, sh);
    var a := Walk(t, Ignore(false, false), env);
    if a.Number? { ExprLaws.PutIsNumber(a.n); }
  }

  // ----- words that are no expression -----

  lemma {:induction false} TextFails(v: seq<string>, k: nat, e: Error, env: Env)
    requires k <= 4 && Exp6(v, 0, Ignore(false, false), env) == NoText(e)
    ensures ExpText(v, 0, Ignore(false, false), k, env) == NoText(e)
    decreases 4 - k
  {
    if k < 4 { TextFails(v, k + 1, e, env); }
  }

  lemma {:induction false} IntFails(v: seq<string>, k: nat, e: Error, env: Env)
    requires k <= 5 && Exp6(v, 0, Ignore(false, false), env) == NoText(e)
    ensures ExpInt(v, 0, Ignore(false, false), k, env) == NoInt(e)
    decreases 5 - k
  {
    if k < 5 { IntFails(v, k + 1, e, env); } else { TextFails(v, 0, e, env); }
  }

  // No words; a brace that is not closed; a parenthesis that is not closed where the value
  // in it ends.
  lemma Unfinished(words: seq<string>, n: int, env: Env)
    ensures ExpInt([], 0, Ignore(false, false), 0, env) == NoInt(Syntax)
    ensures "}" !in words ==> ExpInt(["{"] + words, 0, Ignore(false, false), 0, env) == NoInt(MissingBrace)
    ensures ExpInt(["("] + words, 1, Ignore(false, false), 0, env) == IntAt(n, 1 + |words|) ==>
              ExpInt(["("] + words, 0, Ignore(false, false), 0, env) == NoInt(Syntax)
  {
    IntFails([], 0, Syntax, env);
    if "}" !in words { IntFails(["{"] + words, 0, MissingBrace, env); }
    if ExpInt(["("] + words, 1, Ignore(false, false), 0, env) == IntAt(n, 1 + |words|) {
      IntFails(["("] + words, 0, Syntax, env);
    }
  }

  // The words that are operators where a file name is wanted.
  lemma OperatorWords(w: string)
    ensures Isa(Some(w), ANYOP) != 0 <==>
            w == "+" || w == "-" || w == "*" || w == "/" || w == "%"
            || w == "(" || w == ")" || w == "!" || w == "~" || w == "^" || w == "\""
            || w == "|&" || w == "==" || w == "=~" || w == "!=" || w == "!~"
            || (w != "" && (w[0] == '<' || w[0] == '>'))
  {
    if |w| == 1 { assert w == [w[0]]; }
    if |w| == 2 { assert w == [w[0], w[1]]; }
  }

  // A file inquiry with more than its letter; one without a name, or with an operator for a
  // name that is no file; and one for a name that does not expand.
  lemma WrongInquiry(kind: char, more: string, rest: seq<string>, name: string, env: Env)
    requires kind in "erwxfdzopls"
    ensures more != "" ==> ExpInt([['-', kind] + more] + rest, 0, Ignore(false, false), 0, env) == NoInt(BadInquiry)
    ensures ExpInt([['-', kind]], 0, Ignore(false, false), 0, env) == NoInt(MissingName)
    ensures Isa(Some(name), ANYOP) != 0 && !env.exists_(name) ==>
              ExpInt([['-', kind], name] + rest, 0, Ignore(false, false), 0, env) == NoInt(MissingName)
    ensures Isa(Some(name), ANYOP) == 0 && env.glob(name) == None ==>
              ExpInt([['-', kind], name] + rest, 0, Ignore(false, false), 0, env) == NoInt(GlobFailed(name))
  {
    if more != "" {
      InquiryWord(kind, more);
      IntFails([['-', kind] + more] + rest, 0, BadInquiry, env);
    }
    InquiryWord(kind, "");
    assert ['-', kind] + "" == ['-', kind];
    IntFails([['-', kind]], 0, MissingName, env);
    if Isa(Some(name), ANYOP) != 0 && !env.exists_(name) {
      IntFails([['-', kind], name] + rest, 0, MissingName, env);
    }
    if Isa(Some(name), ANYOP) == 0 && env.glob(name) == None {
      IntFails([['-', kind], name] + rest, 0, GlobFailed(name), env);
    }
  }

  lemma InquiryWord(kind: char, more: string)
    requires kind in "erwxfdzopls"
    ensures var w := ['-', kind] + more;
            && IsInquiry(w) && |w| == 2 + |more| && Isa(Some(w), ANYOP) == 0
            && w != "!" && w != "~" && w != "(" && w != "{"
  {
  }

  // A word that is no number: Expression syntax when it begins with anything but a digit or
  // a -, and else Badly formed number.
  lemma NotANumber(cp: string)
    requires EGetN(cp).NoNumber?
    ensures cp != ""
    ensures EGetN(cp).error == if cp[0] == '-' || '0' <= cp[0] <= '9' then BadNumber else Syntax
  {
  }
}

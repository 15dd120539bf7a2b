// Evaluation of @, if, while and exit expressions (bin/csh/exp.c), which parses and
// evaluates in one pass over a vector of words.
module Expr {
  import opened Shared
  import opened Numbers
  import GlobMatch

  datatype Error =
    | Syntax              // Expression syntax
    | BadNumber           // Badly formed number
    | DivByZero
    | ModByZero
    | MissingBrace        // Missing }
    | BadInquiry          // Malformed file inquiry
    | MissingName         // Missing file name
    | GlobFailed(word: string)
    | MatchFailed(why: GlobMatch.Match)

  // ----- operators -----

  // A set of operator classes.
  datatype Mask = Mask(add: bool, mul: bool, eq: bool, rel: bool, rest: bool)

  const ADDOP := Mask(true, false, false, false, false)
  const MULOP := Mask(false, true, false, false, false)
  const EQOP := Mask(false, false, true, false, false)
  const RELOP := Mask(false, false, false, true, false)
  const ANYOP := Mask(true, true, true, true, true)

  const EQEQ := 1
  const GTR := 2
  const LSS := 4
  const NOTEQ := 6
  const EQMATCH := 7
  const NOTEQMATCH := 8

  // Is the word an operator of one of the classes, and which? No word: end of vector.
  function Isa(w: Option<string>, what: Mask): int {
    match w
    case None => if what.rest then 1 else 0
    case Some(cp) =>
      var c, d := First(cp), Second(cp);
      if |cp| == 1 && what.add && (c == '+' || c == '-') then 1
      else if |cp| == 1 && what.mul && (c == '*' || c == '/' || c == '%') then 1
      else if |cp| == 1 && what.rest && IsRest(c) then 1
      else if |cp| == 2 && what.rest && ((c == '|' && d == '&') || (c == d && (c == '<' || c == '>'))) then 1
      else if |cp| == 2 && what.eq && c == '=' && d == '=' then EQEQ
      else if |cp| == 2 && what.eq && c == '=' && d == '~' then EQMATCH
      else if |cp| == 2 && what.eq && c == '!' && d == '=' then NOTEQ
      else if |cp| == 2 && what.eq && c == '!' && d == '~' then NOTEQMATCH
      else if what.rel && c == '<' then LSS
      else if what.rel && c == '>' then GTR
      else 0
  }

  predicate IsRest(c: char) {
    c == '(' || c == ')' || c == '!' || c == '~' || c == '^' || c == '"'
  }

  function At(v: seq<string>, p: nat): Option<string> {
    if p < |v| then Some(v[p]) else None
  }

  // || && | ^ &, from weak to strong.
  function IntOp(k: nat): string
    requires k <= 4
  {
    ["||", "&&", "|", "^", "&"][k]
  }

  // Operators on text, by level: comparison, shift, sum, product.
  datatype Op =
    | Rel(code: int)
    | Shift(left: bool)
    | Sum(plus: bool)
    | Product(sign: char)

  predicate IsShift(w: string) {
    |w| > 1 && w[0] == w[1] && (w[0] == '<' || w[0] == '>')
  }

  datatype Found = Found(op: Op, words: nat) | NoOp

  // The operator of text level k at p and the number of its words.
  function OpAt(v: seq<string>, p: nat, k: nat): (r: Found)
    requires k <= 3
    ensures r.Found? ==> 1 <= r.words <= 2 && p + r.words <= |v|
  {
    var w := At(v, p);
    if k == 0 then
      var i := Isa(w, RELOP);
      if i == 0 then NoOp
      else if p + 1 < |v| && |v[p + 1]| == 1 && v[p + 1][0] == '=' then Found(Rel(i + 1), 2)
      else Found(Rel(i), 1)
    else if k == 1 then
      if w.Some? && IsShift(w.value) then Found(Shift(First(w.value) == '<'), 1) else NoOp
    else if k == 2 then
      if Isa(w, ADDOP) != 0 then Found(Sum(First(w.value) == '+'), 1) else NoOp
    else
      if Isa(w, MULOP) != 0 then Found(Product(First(w.value)), 1) else NoOp
  }

  // ----- operators on values -----

  datatype Number = Number(n: int) | NoNumber(error: Error)

  datatype Str = Str(s: string) | NoStr(error: Error)

  function Bit(b: bool): int {
    if b then 1 else 0
  }

  function CombineInt(k: nat, a: int, b: int): int {
    match k
    case 0 => Bit(a != 0 || b != 0)
    case 1 => Bit(a != 0 && b != 0)
    case 2 => Bitwise(OrBits, a, b)
    case 3 => Bitwise(XorBits, a, b)
    case _ => Bitwise(AndBits, a, b)
  }

  function EGetN(cp: string): Number {
    if cp != "" && cp[0] != '-' && !IsDigit(cp[0]) then NoNumber(Syntax)
    else
      match GetN(cp)
      case None => NoNumber(BadNumber)
      case Some(n) => Number(n)
  }

  function Compare(code: int, a: string, b: string): Number {
    if code == EQEQ then Number(Bit(a == b))
    else if code == NOTEQ then Number(Bit(a != b))
    else
      match GlobMatch.GMatch(a, b)
      case Matched => Number(Bit(code == EQMATCH))
      case NoMatch => Number(Bit(code != EQMATCH))
      case other => NoNumber(MatchFailed(other))
  }

  predicate Holds(code: int, a: int, b: int) {
    if code == GTR then a > b
    else if code == GTR + 1 then a >= b
    else if code == LSS then a < b
    else a <= b
  }

  predicate IsDivision(op: Op) {
    op.Product? && op.sign != '*'
  }

  // The shifts are given: C leaves open what they do for counts outside the word.
  datatype Shifts = Shifts(left: (int, int) -> int, right: (int, int) -> int)

  function Arith(op: Op, x: int, y: int, sh: Shifts): int
    requires IsDivision(op) ==> y != 0
  {
    match op
    case Rel(code) => Bit(Holds(code, x, y))
    case Shift(left) => if left then sh.left(x, y) else sh.right(x, y)
    case Sum(plus) => if plus then x + y else x - y
    case Product(sign) =>
      if sign == '*' then x * y else if sign == '/' then TruncDiv(x, y) else TruncMod(x, y)
  }

  // A divisor is looked at before the dividend.
  function CombineText(op: Op, a: string, b: string, sh: Shifts): Str {
    if IsDivision(op) && EGetN(b).NoNumber? then NoStr(EGetN(b).error)
    else if IsDivision(op) && EGetN(b).n == 0 then NoStr(if op.sign == '/' then DivByZero else ModByZero)
    else
      match EGetN(a)
      case NoNumber(e) => NoStr(e)
      case Number(x) =>
        match EGetN(b)
        case NoNumber(e) => NoStr(e)
        case Number(y) => Str(PutN(Arith(op, x, y, sh)))
  }

  // What an operator leaves when its value is not wanted: shifts still compute.
  function SkipText(op: Op, a: string, b: string, sh: Shifts): Str {
    if op.Shift? then CombineText(op, a, b, sh) else Str(PutN(if op.Rel? then op.code else 0))
  }

  function Unary(bang: bool, a: string): Str {
    match EGetN(a)
    case NoNumber(e) => NoStr(e)
    case Number(i) => Str(PutN(if bang then Bit(i == 0) else Complement(i)))
  }

  // The meaning of the operators, apart from how expressions are put together.
  datatype Semantics = Semantics(
    number: string -> Number,
    text: int -> string,
    compare: (int, string, string) -> Number,
    combine: (Op, string, string) -> Str,
    skip: (Op, string, string) -> Str,
    unary: (bool, string) -> Str)

  // The operators of the shell.
  function Shell(sh: Shifts): Semantics {
    Semantics(
      s => EGetN(s),
      i => PutN(i),
      (code, a, b) => Compare(code, a, b),
      (op, a, b) => CombineText(op, a, b, sh),
      (op, a, b) => SkipText(op, a, b, sh),
      (bang, a) => Unary(bang, a))
  }

  // What the evaluator calls: the operators, file name expansion of one word, file
  // status and commands.
  datatype Env = Env(
    sem: Semantics,
    glob: string -> Option<string>,
    exists_: string -> bool,
    test: (char, string) -> bool,
    run: seq<string> -> bool)

  predicate IsInquiry(w: string) {
    |w| >= 2 && w[0] == '-' && w[1] in "erwxfdzopls"
  }

  function Inquire(kind: char, name: string, env: Env): Str {
    match env.glob(name)
    case None => NoStr(GlobFailed(name))
    case Some(ep) => Str(env.sem.text(Bit(env.test(kind, ep))))
  }

  function GlobWord(w: string, env: Env): Str {
    match env.glob(w)
    case None => NoStr(GlobFailed(w))
    case Some(x) => Str(x)
  }

  // The first } at or after p.
  function FindBrace(v: seq<string>, p: nat): (r: Option<nat>)
    requires p <= |v|
    ensures r.Some? ==> p <= r.value < |v| && v[r.value] == "}"
    ensures forall i :: p <= i < (if r.Some? then r.value else |v|) ==> v[i] != "}"
    decreases |v| - p
  {
    if p == |v| then None
    else if v[p] == "}" then Some(p)
    else FindBrace(v, p + 1)
  }

  // ----- the one-pass evaluator -----

  // skip: parse only; noglob: do not expand file names.
  datatype Ignore = Ignore(skip: bool, noglob: bool)

  // A value and the cursor behind its expression.
  datatype IntAt = IntAt(n: int, pos: nat) | NoInt(error: Error)

  datatype TextAt = TextAt(s: string, pos: nat) | NoText(error: Error)

  function StrAt(s: Str, pos: nat): TextAt {
    match s
    case NoStr(e) => NoText(e)
    case Str(x) => TextAt(x, pos)
  }

  function NumberAt(n: Number, pos: nat): IntAt {
    match n
    case NoNumber(e) => NoInt(e)
    case Number(x) => IntAt(x, pos)
  }

  // How the right operand of a level k operator is read, the left one being a: the
  // operand of || and && is skipped when a decides.
  function RightMode(k: nat, ign: Ignore, a: int): Ignore {
    if k == 0 then Ignore(ign.skip || a != 0, false)
    else if k == 1 then Ignore(ign.skip || a == 0, false)
    else ign
  }

  // exp0, exp1, csh_exp2, exp2a, exp2b for k = 0..4, exp2c for 5
  function ExpInt(v: seq<string>, p: nat, ign: Ignore, k: nat, env: Env): (r: IntAt)
    requires p <= |v| && k <= 5
    ensures r.IntAt? ==> p <= r.pos <= |v|
    decreases |v| - p, 12 - k
  {
    if k == 5 then Exp2c(v, p, ign, env)
    else
      match ExpInt(v, p, ign, k + 1, env)
      case NoInt(e) => NoInt(e)
      case IntAt(p1, q) =>
        if At(v, q) == Some(IntOp(k)) then
          match ExpInt(v, q + 1, RightMode(k, ign, p1), k, env)
          case NoInt(e) => NoInt(e)
          case IntAt(p2, q2) => IntAt(CombineInt(k, p1, p2), q2)
        else IntAt(p1, q)
  }

  // The right operand of =~ and !~ is a pattern, not a file name.
  function PatternMode(i: int, ign: Ignore): Ignore {
    if i == EQMATCH || i == NOTEQMATCH then ign.(noglob := true) else ign
  }

  function Exp2c(v: seq<string>, p: nat, ign: Ignore, env: Env): (r: IntAt)
    requires p <= |v|
    ensures r.IntAt? ==> p <= r.pos <= |v|
    decreases |v| - p, 6
  {
    match ExpText(v, p, ign, 0, env)
    case NoText(e) => NoInt(e)
    case TextAt(p1, q) =>
      var i := Isa(At(v, q), EQOP);
      if i != 0 then
        match ExpText(v, q + 1, PatternMode(i, ign), 0, env)
        case NoText(e) => NoInt(e)
        case TextAt(p2, q2) => if ign.skip then IntAt(i, q2) else NumberAt(env.sem.compare(i, p1, p2), q2)
      else NumberAt(env.sem.number(p1), q)
  }

  // exp3, exp3a, exp4, exp5 for k = 0..3, exp6 for 4
  function ExpText(v: seq<string>, p: nat, ign: Ignore, k: nat, env: Env): (r: TextAt)
    requires p <= |v| && k <= 4
    ensures r.TextAt? ==> p <= r.pos <= |v|
    decreases |v| - p, 5 - k
  {
    if k == 4 then Exp6(v, p, ign, env)
    else
      match ExpText(v, p, ign, k + 1, env)
      case NoText(e) => NoText(e)
      case TextAt(p1, q) =>
        match OpAt(v, q, k)
        case NoOp => TextAt(p1, q)
        case Found(op, n) =>
          match ExpText(v, q + n, ign, k, env)
          case NoText(e) => NoText(e)
          case TextAt(p2, q2) =>
            StrAt(if ign.skip then env.sem.skip(op, p1, p2) else env.sem.combine(op, p1, p2), q2)
  }

  function Exp6(v: seq<string>, p: nat, ign: Ignore, env: Env): (r: TextAt)
    requires p <= |v|
    ensures r.TextAt? ==> p <= r.pos <= |v|
    decreases |v| - p, 0
  {
    if p == |v| then NoText(Syntax)
    else if v[p] == "!" || v[p] == "~" then
      match Exp6(v, p + 1, ign, env)
      case NoText(e) => NoText(e)
      case TextAt(cp, q) => StrAt(env.sem.unary(v[p] == "!", cp), q)
    else if v[p] == "(" then
      match ExpInt(v, p + 1, ign, 0, env)
      case NoInt(e) => NoText(e)
      case IntAt(ccode, q) =>
        if q == |v| || First(v[q]) != ')' then NoText(Syntax) else TextAt(env.sem.text(ccode), q + 1)
    else if v[p] == "{" then
      match FindBrace(v, p + 1)
      case None => NoText(MissingBrace)
      case Some(q) => TextAt(if ign.skip then "" else env.sem.text(Bit(env.run(v[p + 1..q]))), q + 1)
    else if Isa(Some(v[p]), ANYOP) != 0 then TextAt("", p)
    else if IsInquiry(v[p]) then
      if |v[p]| > 2 then NoText(BadInquiry)
      else if p + 1 == |v| || (Isa(Some(v[p + 1]), ANYOP) != 0 && !env.exists_(v[p + 1])) then NoText(MissingName)
      else if ign.skip then TextAt("", p + 2)
      else StrAt(Inquire(v[p][1], v[p + 1], env), p + 2)
    else if ign.noglob then TextAt(v[p], p + 1)
    else StrAt(GlobWord(v[p], env), p + 1)
  }
}

// The trees the parser builds: their words are the words it read, and they have the
// shape the precedence levels prescribe, leaning to the right.
module ExprGrammar {
  import opened Shared
  import opened Expr
  import opened ExprTree
  import ExprLaws

  function OpWords(op: Op, tok: string): seq<string> {
    if op.Rel? && (op.code == GTR + 1 || op.code == LSS + 1) then [tok, "="] else [tok]
  }

  function Words(e: Tree): seq<string> {
    match e
    case Bin(k, l, r) => Words(l) + [if k <= 4 then IntOp(k) else ""] + Words(r)
    case Equality(op, x, y) => TermWords(x) + [op] + TermWords(y)
    case Num(x) => TermWords(x)
  }

  function TermWords(t: Term): seq<string> {
    match t
    case Apply(_, op, tok, l, r) => TermWords(l) + OpWords(op, tok) + TermWords(r)
    case Leaf(x) => PrimaryWords(x)
  }

  function PrimaryWords(x: Primary): seq<string> {
    match x
    case Prefixed(bang, u) => [if bang then "!" else "~"] + PrimaryWords(u)
    case Paren(e, close) => ["("] + Words(e) + [close]
    case Command(words) => ["{"] + words + ["}"]
    case Empty => []
    case Inquiry(kind, name) => [['-', kind], name]
    case Word(w) => [w]
  }

  // An operator of level k has a left operand of a higher level and a right operand of
  // its own level or higher; == != =~ !~ take no operand of their own level.
  predicate Shaped(e: Tree, k: nat) {
    match e
    case Bin(j, l, r) => k <= j <= 4 && Shaped(l, j + 1) && Shaped(r, j)
    case Equality(op, x, y) => k <= 5 && Isa(Some(op), EQOP) != 0 && TermShaped(x, 0) && TermShaped(y, 0)
    case Num(x) => k <= 5 && TermShaped(x, 0)
  }

  predicate TermShaped(t: Term, k: nat) {
    match t
    case Apply(j, op, tok, l, r) => k <= j <= 3 && OpLevel(op) == j && TermShaped(l, j + 1) && TermShaped(r, j)
    case Leaf(x) => k <= 4 && PrimaryShaped(x)
  }

  predicate PrimaryShaped(x: Primary) {
    match x
    case Prefixed(_, u) => PrimaryShaped(u)
    case Paren(e, close) => First(close) == ')' && Shaped(e, 0)
    case Command(words) => "}" !in words
    case _ => true
  }

  function OpLevel(op: Op): nat {
    match op
    case Rel(_) => 0
    case Shift(_) => 1
    case Sum(_) => 2
    case Product(_) => 3
  }

  // The words ws stand at position p of the vector.
  predicate Reads(v: seq<string>, p: nat, ws: seq<string>) {
    p + |ws| <= |v| && forall i :: p <= i < p + |ws| ==> v[i] == ws[i - p]
  }

  lemma ReadsParts(v: seq<string>, p: nat, a: seq<string>, b: seq<string>, c: seq<string>)
    ensures Reads(v, p, a + b + c) <==> Reads(v, p, a) && Reads(v, p + |a|, b) && Reads(v, p + |a| + |b|, c)
  {
    var ws := a + b + c;
    if Reads(v, p, ws) {
      assert forall i :: p <= i < p + |a| ==> v[i] == ws[i - p] == a[i - p];
      assert forall i :: p + |a| <= i < p + |a| + |b| ==> v[i] == ws[i - p] == b[i - p - |a|];
      assert forall i :: p + |a| + |b| <= i < p + |ws| ==> v[i] == ws[i - p] == c[i - p - |a| - |b|];
    }
  }

  // What the parser returns stands at p, ends at the cursor and has the shape of its level.
  ghost predicate TreeFits(v: seq<string>, p: nat, k: nat, r: TreeAt) {
    r.TreeAt? ==> Reads(v, p, Words(r.tree)) && p + |Words(r.tree)| == r.pos && Shaped(r.tree, k)
  }

  ghost predicate TermFits(v: seq<string>, p: nat, k: nat, r: TermAt) {
    r.TermAt? ==> Reads(v, p, TermWords(r.term)) && p + |TermWords(r.term)| == r.pos && TermShaped(r.term, k)
  }

  ghost predicate PrimaryFits(v: seq<string>, p: nat, r: PrimaryAt) {
    r.PrimaryAt? ==> Reads(v, p, PrimaryWords(r.x)) && p + |PrimaryWords(r.x)| == r.pos && PrimaryShaped(r.x)
  }

  lemma {:induction false} TreeOfWords(v: seq<string>, p: nat, k: nat, env: Env)
    requires p <= |v| && k <= 5
    ensures TreeFits(v, p, k, ParseTree(v, p, k, env.exists_))
    decreases |v| - p, 12 - k
  {
    if k == 5 {
      EqualityOfWords(v, p, env);
    } else {
      TreeOfWords(v, p, k + 1, env);
      var left := ParseTree(v, p, k + 1, env.exists_);
      if left.TreeAt? {
        ShapedBelow(left.tree, k + 1);
        if At(v, left.pos) == Some(IntOp(k)) {
          TreeOfWords(v, left.pos + 1, k, env);
          BinFits(v, p, k, left, ParseTree(v, left.pos + 1, k, env.exists_));
        }
      }
    }
  }

  lemma BinFits(v: seq<string>, p: nat, k: nat, left: TreeAt, right: TreeAt)
    requires k <= 4 && left.TreeAt? && TreeFits(v, p, k + 1, left) && At(v, left.pos) == Some(IntOp(k))
    requires TreeFits(v, left.pos + 1, k, right)
    ensures right.TreeAt? ==> TreeFits(v, p, k, TreeAt(Bin(k, left.tree, right.tree), right.pos))
  {
    if right.TreeAt? { ReadsParts(v, p, Words(left.tree), [IntOp(k)], Words(right.tree)); }
  }

  lemma {:induction false} EqualityOfWords(v: seq<string>, p: nat, env: Env)
    requires p <= |v|
    ensures TreeFits(v, p, 5, ParseEquality(v, p, env.exists_))
    decreases |v| - p, 6
  {
    TermOfWords(v, p, 0, env);
    var left := ParseTerm(v, p, 0, env.exists_);
    if left.TermAt? && Isa(At(v, left.pos), EQOP) != 0 {
      TermOfWords(v, left.pos + 1, 0, env);
      EqualityFits(v, p, left, ParseTerm(v, left.pos + 1, 0, env.exists_));
    }
  }

  lemma EqualityFits(v: seq<string>, p: nat, left: TermAt, right: TermAt)
    requires left.TermAt? && TermFits(v, p, 0, left) && left.pos < |v| && Isa(Some(v[left.pos]), EQOP) != 0
    requires TermFits(v, left.pos + 1, 0, right)
    ensures right.TermAt? ==> TreeFits(v, p, 5, TreeAt(Equality(v[left.pos], left.term, right.term), right.pos))
  {
    if right.TermAt? { ReadsParts(v, p, TermWords(left.term), [v[left.pos]], TermWords(right.term)); }
  }

  lemma ShapedBelow(e: Tree, k: nat)
    requires k > 0 && Shaped(e, k)
    ensures Shaped(e, k - 1)
  {
  }

  lemma {:induction false} TermOfWords(v: seq<string>, p: nat, k: nat, env: Env)
    requires p <= |v| && k <= 4
    ensures TermFits(v, p, k, ParseTerm(v, p, k, env.exists_))
    decreases |v| - p, 5 - k
  {
    if k == 4 {
      PrimaryOfWords(v, p, env);
    } else {
      TermOfWords(v, p, k + 1, env);
      var left := ParseTerm(v, p, k + 1, env.exists_);
      if left.TermAt? {
        var op := OpAt(v, left.pos, k);
        if op.Found? {
          TermOfWords(v, left.pos + op.words, k, env);
          ApplyFits(v, p, k, left, op, ParseTerm(v, left.pos + op.words, k, env.exists_));
        }
      }
    }
  }

  lemma ApplyFits(v: seq<string>, p: nat, k: nat, left: TermAt, op: Found, right: TermAt)
    requires k <= 3 && left.TermAt? && TermFits(v, p, k + 1, left) && op == OpAt(v, left.pos, k) && op.Found?
    requires TermFits(v, left.pos + op.words, k, right)
    ensures right.TermAt? ==>
              TermFits(v, p, k, TermAt(Apply(k, op.op, v[left.pos], left.term, right.term), right.pos))
  {
    OpOfWords(v, left.pos, k);
    if right.TermAt? { ReadsParts(v, p, TermWords(left.term), OpWords(op.op, v[left.pos]), TermWords(right.term)); }
  }

  lemma OpOfWords(v: seq<string>, p: nat, k: nat)
    requires k <= 3 && OpAt(v, p, k).Found?
    ensures var f := OpAt(v, p, k);
            OpLevel(f.op) == k && Reads(v, p, OpWords(f.op, v[p])) && |OpWords(f.op, v[p])| == f.words
  {
    var f := OpAt(v, p, k);
    if f.words == 2 { assert v[p + 1] == "="; }
  }

  lemma {:induction false} PrimaryOfWords(v: seq<string>, p: nat, env: Env)
    requires p <= |v|
    ensures PrimaryFits(v, p, ParsePrimary(v, p, env.exists_))
    decreases |v| - p, 0
  {
    if p == |v| {
    } else if v[p] == "!" || v[p] == "~" {
      PrimaryOfWords(v, p + 1, env);
      PrefixedFits(v, p, ParsePrimary(v, p + 1, env.exists_));
    } else if v[p] == "(" {
      TreeOfWords(v, p + 1, 0, env);
      ParenFits(v, p, ParseTree(v, p + 1, 0, env.exists_));
    } else if v[p] == "{" {
      CommandFits(v, p, FindBrace(v, p + 1));
    }
  }

  lemma PrefixedFits(v: seq<string>, p: nat, u: PrimaryAt)
    requires p < |v| && (v[p] == "!" || v[p] == "~") && PrimaryFits(v, p + 1, u)
    ensures u.PrimaryAt? ==> PrimaryFits(v, p, PrimaryAt(Prefixed(v[p] == "!", u.x), u.pos))
  {
    if u.PrimaryAt? {
      ReadsParts(v, p, [], [v[p]], PrimaryWords(u.x));
      assert [] + [v[p]] == [v[p]];
    }
  }

  lemma ParenFits(v: seq<string>, p: nat, e: TreeAt)
    requires p < |v| && v[p] == "(" && TreeFits(v, p + 1, 0, e)
    ensures e.TreeAt? && e.pos < |v| && First(v[e.pos]) == ')' ==>
              PrimaryFits(v, p, PrimaryAt(Paren(e.tree, v[e.pos]), e.pos + 1))
  {
    if e.TreeAt? && e.pos < |v| { ReadsParts(v, p, ["("], Words(e.tree), [v[e.pos]]); }
  }

  lemma CommandFits(v: seq<string>, p: nat, q: Option<nat>)
    requires p < |v| && v[p] == "{" && q == FindBrace(v, p + 1)
    ensures q.Some? ==> PrimaryFits(v, p, PrimaryAt(Command(v[p + 1..q.value]), q.value + 1))
  {
    if q.Some? {
      var words := v[p + 1..q.value];
      assert "}" !in words;
      BracedReads(v, p, q.value);
      assert PrimaryWords(Command(words)) == ["{"] + words + ["}"];
    }
  }

  lemma BracedReads(v: seq<string>, p: nat, q: nat)
    requires p < q < |v| && v[p] == "{" && v[q] == "}"
    ensures Reads(v, p, ["{"] + v[p + 1..q] + ["}"])
  {
    var ws := ["{"] + v[p + 1..q] + ["}"];
    assert forall i :: p <= i < p + |ws| ==> v[i] == ws[i - p];
  }

  // ----- every such tree of plain operands is read back -----

  // A word that is no operator, no bracket, no inquiry: a name or a number.
  predicate PlainWord(w: string) {
    && w !in ["!", "~", "(", "{", "||", "&&", "|", "^", "&"]
    && Isa(Some(w), ANYOP) == 0 && !IsInquiry(w) && First(w) != ')' && w != "="
  }

  predicate PlainOp(op: Op, tok: string) {
    match op
    case Rel(code) =>
      |tok| == 1 && tok[0] == (if code == LSS || code == LSS + 1 then '<' else '>') && GTR <= code <= LSS + 1
    case Shift(left) => |tok| == 2 && tok[0] == tok[1] == if left then '<' else '>'
    case Sum(plus) => |tok| == 1 && tok[0] == if plus then '+' else '-'
    case Product(sign) => |tok| == 1 && tok[0] == sign && (sign == '*' || sign == '/' || sign == '%')
  }

  predicate Plain(e: Tree) {
    match e
    case Bin(_, l, r) => Plain(l) && Plain(r)
    case Equality(_, x, y) => PlainTerm(x) && PlainTerm(y)
    case Num(x) => PlainTerm(x)
  }

  predicate PlainTerm(t: Term) {
    match t
    case Apply(_, op, tok, l, r) => PlainOp(op, tok) && PlainTerm(l) && PlainTerm(r)
    case Leaf(x) => PlainPrimary(x)
  }

  predicate PlainPrimary(x: Primary) {
    match x
    case Prefixed(_, u) => PlainPrimary(u)
    case Paren(e, close) => Plain(e)
    case Command(words) => true
    case Empty => false
    case Inquiry(kind, name) => kind in "erwxfdzopls" && Isa(Some(name), ANYOP) == 0
    case Word(w) => PlainWord(w)
  }

  // At q stands nothing that continues a tree of level k.
  predicate Stops(v: seq<string>, q: nat, k: nat) {
    && (forall j :: k <= j <= 4 ==> At(v, q) != Some(IntOp(j)))
    && Isa(At(v, q), EQOP) == 0 && TermStops(v, q, 0)
  }

  predicate TermStops(v: seq<string>, q: nat, k: nat) {
    forall j :: k <= j <= 3 ==> OpAt(v, q, j).NoOp?
  }

  lemma IntOpStops(v: seq<string>, q: nat, k: nat)
    requires k <= 4 && q < |v| && v[q] == IntOp(k)
    ensures Stops(v, q, k + 1)
  {
    assert k == 0 || k == 1 || k == 2 || k == 3 || k == 4;
  }

  lemma EqualityStops(v: seq<string>, q: nat)
    requires q < |v| && Isa(Some(v[q]), EQOP) != 0
    ensures TermStops(v, q, 0)
  {
  }

  lemma OpStops(v: seq<string>, q: nat, op: Op, tok: string)
    requires q < |v| && v[q] == tok && PlainOp(op, tok)
    ensures TermStops(v, q, OpLevel(op) + 1)
  {
  }

  lemma OpIsFound(v: seq<string>, q: nat, op: Op, tok: string)
    requires PlainOp(op, tok) && Reads(v, q, OpWords(op, tok))
    requires q + |OpWords(op, tok)| < |v| ==> v[q + |OpWords(op, tok)|] != "="
    ensures OpAt(v, q, OpLevel(op)) == Found(op, |OpWords(op, tok)|)
  {
    var ws := OpWords(op, tok);
    assert v[q] == ws[0];
    if |ws| == 2 { assert v[q + 1] == ws[1]; }
  }

  // Operands do not begin with =.
  lemma {:induction false} FirstWord(t: Term)
    requires PlainTerm(t)
    ensures TermWords(t) != [] && TermWords(t)[0] != "="
  {
    match t
    case Apply(_, _, _, l, _) => FirstWord(l);
    case Leaf(x) =>
  }

  lemma BinReads(v: seq<string>, p: nat, j: nat, l: Tree, r: Tree) returns (m: nat)
    requires j <= 4 && Reads(v, p, Words(Bin(j, l, r)))
    ensures m == p + |Words(l)| < |v| && Reads(v, p, Words(l)) && Reads(v, m + 1, Words(r))
    ensures v[m] == IntOp(j) && Stops(v, m, j + 1)
    ensures m + 1 + |Words(r)| == p + |Words(Bin(j, l, r))|
  {
    ReadsParts(v, p, Words(l), [IntOp(j)], Words(r));
    m := p + |Words(l)|;
    IntOpStops(v, m, j);
  }

  lemma EqualityReads(v: seq<string>, p: nat, op: string, x: Term, y: Term) returns (m: nat)
    requires Isa(Some(op), EQOP) != 0 && Reads(v, p, Words(Equality(op, x, y)))
    ensures m == p + |TermWords(x)| < |v| && Reads(v, p, TermWords(x)) && Reads(v, m + 1, TermWords(y))
    ensures v[m] == op && TermStops(v, m, 0)
    ensures m + 1 + |TermWords(y)| == p + |Words(Equality(op, x, y))|
  {
    ReadsParts(v, p, TermWords(x), [op], TermWords(y));
    m := p + |TermWords(x)|;
    EqualityStops(v, m);
  }

  lemma ApplyReads(v: seq<string>, p: nat, t: Term) returns (m: nat, n: nat)
    requires t.Apply? && PlainTerm(t) && Reads(v, p, TermWords(t))
    ensures m == p + |TermWords(t.l)| < |v| && n == |OpWords(t.op, t.tok)|
    ensures Reads(v, p, TermWords(t.l)) && Reads(v, m + n, TermWords(t.r))
    ensures v[m] == t.tok && TermStops(v, m, OpLevel(t.op) + 1) && OpAt(v, m, OpLevel(t.op)) == Found(t.op, n)
    ensures m + n + |TermWords(t.r)| == p + |TermWords(t)|
  {
    ReadsParts(v, p, TermWords(t.l), OpWords(t.op, t.tok), TermWords(t.r));
    m := p + |TermWords(t.l)|;
    n := |OpWords(t.op, t.tok)|;
    FirstWord(t.r);
    OpStops(v, m, t.op, t.tok);
    OpIsFound(v, m, t.op, t.tok);
  }

  // One level of the parser, given what the level below makes of the left operand.
  lemma TreePassed(v: seq<string>, p: nat, k: nat, e: Tree, q: nat, env: Env)
    requires p <= |v| && k <= 4 && ParseTree(v, p, k + 1, env.exists_) == TreeAt(e, q) && At(v, q) != Some(IntOp(k))
    ensures ParseTree(v, p, k, env.exists_) == TreeAt(e, q)
  {
  }

  lemma BinParsed(v: seq<string>, p: nat, k: nat, l: Tree, m: nat, r: Tree, q: nat, env: Env)
    requires p <= |v| && k <= 4 && ParseTree(v, p, k + 1, env.exists_) == TreeAt(l, m)
    requires At(v, m) == Some(IntOp(k)) && ParseTree(v, m + 1, k, env.exists_) == TreeAt(r, q)
    ensures ParseTree(v, p, k, env.exists_) == TreeAt(Bin(k, l, r), q)
  {
  }

  lemma EqualityParsed(v: seq<string>, p: nat, x: Term, m: nat, y: Term, q: nat, env: Env)
    requires p <= |v| && ParseTerm(v, p, 0, env.exists_) == TermAt(x, m)
    requires m < |v| && Isa(Some(v[m]), EQOP) != 0 && ParseTerm(v, m + 1, 0, env.exists_) == TermAt(y, q)
    ensures ParseTree(v, p, 5, env.exists_) == TreeAt(Equality(v[m], x, y), q)
  {
  }

  lemma NumParsed(v: seq<string>, p: nat, x: Term, q: nat, env: Env)
    requires p <= |v| && ParseTerm(v, p, 0, env.exists_) == TermAt(x, q) && Isa(At(v, q), EQOP) == 0
    ensures ParseTree(v, p, 5, env.exists_) == TreeAt(Num(x), q)
  {
  }

  lemma TermPassed(v: seq<string>, p: nat, k: nat, t: Term, q: nat, env: Env)
    requires p <= |v| && k <= 3 && ParseTerm(v, p, k + 1, env.exists_) == TermAt(t, q) && OpAt(v, q, k).NoOp?
    ensures ParseTerm(v, p, k, env.exists_) == TermAt(t, q)
  {
  }

  lemma ApplyParsed(v: seq<string>, p: nat, k: nat, l: Term, m: nat, op: Op, n: nat, r: Term, q: nat, env: Env)
    requires p <= |v| && k <= 3 && ParseTerm(v, p, k + 1, env.exists_) == TermAt(l, m)
    requires OpAt(v, m, k) == Found(op, n) && ParseTerm(v, m + n, k, env.exists_) == TermAt(r, q)
    ensures ParseTerm(v, p, k, env.exists_) == TermAt(Apply(k, op, v[m], l, r), q)
  {
  }

  lemma {:induction false} TreeIsRead(v: seq<string>, p: nat, e: Tree, k: nat, env: Env)
    requires k <= 5 && Shaped(e, k) && Plain(e)
    requires Reads(v, p, Words(e)) && Stops(v, p + |Words(e)|, k)
    ensures ParseTree(v, p, k, env.exists_) == TreeAt(e, p + |Words(e)|)
    decreases e, 12 - k
  {
    var q := p + |Words(e)|;
    if k < 5 && !(e.Bin? && e.k == k) {
      TreeIsRead(v, p, e, k + 1, env);
      TreePassed(v, p, k, e, q, env);
    } else {
      match e
      case Bin(_, _, _) => BinIsRead(v, p, e, env);
      case Equality(_, _, _) => EqualityIsRead(v, p, e, env);
      case Num(x) =>
        TermIsRead(v, p, x, 0, env);
        NumParsed(v, p, x, q, env);
    }
  }

  lemma {:induction false} EqualityIsRead(v: seq<string>, p: nat, e: Tree, env: Env)
    requires e.Equality? && Shaped(e, 5) && Plain(e)
    requires Reads(v, p, Words(e)) && TermStops(v, p + |Words(e)|, 0)
    ensures ParseTree(v, p, 5, env.exists_) == TreeAt(e, p + |Words(e)|)
    decreases e, 0
  {
    var m := EqualityReads(v, p, e.op, e.x, e.y);
    TermIsRead(v, p, e.x, 0, env);
    TermIsRead(v, m + 1, e.y, 0, env);
    EqualityParsed(v, p, e.x, m, e.y, p + |Words(e)|, env);
  }

  lemma {:induction false} BinIsRead(v: seq<string>, p: nat, e: Tree, env: Env)
    requires e.Bin? && Shaped(e, e.k) && Plain(e)
    requires Reads(v, p, Words(e)) && Stops(v, p + |Words(e)|, e.k)
    ensures ParseTree(v, p, e.k, env.exists_) == TreeAt(e, p + |Words(e)|)
    decreases e, 0
  {
    var q := p + |Words(e)|;
    assert e == Bin(e.k, e.l, e.r);
    var m := BinReads(v, p, e.k, e.l, e.r);
    BinPartsRead(v, p, m, q, e, env);
    BinParsed(v, p, e.k, e.l, m, e.r, q, env);
  }

  lemma {:induction false} BinPartsRead(v: seq<string>, p: nat, m: nat, q: nat, e: Tree, env: Env)
    requires e.Bin? && e.k <= 4 && Shaped(e.l, e.k + 1) && Shaped(e.r, e.k) && Plain(e.l) && Plain(e.r)
    requires Reads(v, p, Words(e.l)) && m == p + |Words(e.l)| && Stops(v, m, e.k + 1)
    requires Reads(v, m + 1, Words(e.r)) && q == m + 1 + |Words(e.r)| && Stops(v, q, e.k)
    ensures p <= m < |v| && ParseTree(v, p, e.k + 1, env.exists_) == TreeAt(e.l, m)
    ensures ParseTree(v, m + 1, e.k, env.exists_) == TreeAt(e.r, q)
    decreases e, -1
  {
    TreeIsRead(v, p, e.l, e.k + 1, env);
    TreeIsRead(v, m + 1, e.r, e.k, env);
  }

  lemma {:induction false} TermIsRead(v: seq<string>, p: nat, t: Term, k: nat, env: Env)
    requires k <= 4 && TermShaped(t, k) && PlainTerm(t)
    requires Reads(v, p, TermWords(t)) && TermStops(v, p + |TermWords(t)|, k)
    ensures ParseTerm(v, p, k, env.exists_) == TermAt(t, p + |TermWords(t)|)
    decreases t, 12 - k
  {
    var q := p + |TermWords(t)|;
    if k < 4 && !(t.Apply? && t.k == k) {
      TermIsRead(v, p, t, k + 1, env);
      TermPassed(v, p, k, t, q, env);
    } else {
      match t
      case Apply(_, _, _, _, _) => ApplyIsRead(v, p, t, env);
      case Leaf(x) => PrimaryIsRead(v, p, x, env);
    }
  }

  lemma {:induction false} ApplyIsRead(v: seq<string>, p: nat, t: Term, env: Env)
    requires t.Apply? && TermShaped(t, t.k) && PlainTerm(t)
    requires Reads(v, p, TermWords(t)) && TermStops(v, p + |TermWords(t)|, t.k)
    ensures ParseTerm(v, p, t.k, env.exists_) == TermAt(t, p + |TermWords(t)|)
    decreases t, 0
  {
    var m, n := ApplyReads(v, p, t);
    var q := p + |TermWords(t)|;
    LeftIsRead(v, p, t, m, env);
    RightIsRead(v, m + n, t, q, env);
    ApplyParsed(v, p, t.k, t.l, m, t.op, n, t.r, q, env);
  }

  lemma {:induction false} LeftIsRead(v: seq<string>, p: nat, t: Term, m: nat, env: Env)
    requires t.Apply? && TermShaped(t, t.k) && PlainTerm(t)
    requires Reads(v, p, TermWords(t.l)) && m == p + |TermWords(t.l)| && TermStops(v, m, t.k + 1)
    ensures ParseTerm(v, p, t.k + 1, env.exists_) == TermAt(t.l, m)
    decreases t.l, 13
  {
    TermIsRead(v, p, t.l, t.k + 1, env);
  }

  lemma {:induction false} RightIsRead(v: seq<string>, p: nat, t: Term, q: nat, env: Env)
    requires t.Apply? && TermShaped(t, t.k) && PlainTerm(t)
    requires Reads(v, p, TermWords(t.r)) && q == p + |TermWords(t.r)| && TermStops(v, q, t.k)
    ensures ParseTerm(v, p, t.k, env.exists_) == TermAt(t.r, q)
    decreases t.r, 13
  {
    TermIsRead(v, p, t.r, t.k, env);
  }

  lemma {:induction false} PrimaryIsRead(v: seq<string>, p: nat, x: Primary, env: Env)
    requires PrimaryShaped(x) && PlainPrimary(x) && Reads(v, p, PrimaryWords(x))
    ensures ParsePrimary(v, p, env.exists_) == PrimaryAt(x, p + |PrimaryWords(x)|)
    decreases x, 1
  {
    match x
    case Prefixed(_, _) => PrefixedIsRead(v, p, x, env);
    case Paren(_, _) => ParenIsRead(v, p, x, env);
    case Command(words) => CommandIsRead(v, p, words, env);
    case Inquiry(kind, name) => InquiryIsRead(v, p, kind, name, env);
    case Word(w) => WordIsRead(v, p, w, env);
    case Empty =>
  }

  lemma {:induction false} PrefixedIsRead(v: seq<string>, p: nat, x: Primary, env: Env)
    requires x.Prefixed? && PrimaryShaped(x) && PlainPrimary(x) && Reads(v, p, PrimaryWords(x))
    ensures ParsePrimary(v, p, env.exists_) == PrimaryAt(x, p + |PrimaryWords(x)|)
    decreases x, 0
  {
    PrefixedReads(v, p, x.bang, x.t);
    PrimaryIsRead(v, p + 1, x.t, env);
    PrefixedParsed(v, p, x.bang, x.t, p + 1 + |PrimaryWords(x.t)|, env);
  }

  lemma {:induction false} ParenIsRead(v: seq<string>, p: nat, x: Primary, env: Env)
    requires x.Paren? && PrimaryShaped(x) && PlainPrimary(x) && Reads(v, p, PrimaryWords(x))
    ensures ParsePrimary(v, p, env.exists_) == PrimaryAt(x, p + |PrimaryWords(x)|)
    decreases x, 0
  {
    ParenReads(v, p, x.e, x.close);
    TreeIsRead(v, p + 1, x.e, 0, env);
    ParenParsed(v, p, x.e, p + 1 + |Words(x.e)|, env);
  }

  lemma InquiryIsRead(v: seq<string>, p: nat, kind: char, name: string, env: Env)
    requires PlainPrimary(Inquiry(kind, name)) && Reads(v, p, PrimaryWords(Inquiry(kind, name)))
    ensures ParsePrimary(v, p, env.exists_) == PrimaryAt(Inquiry(kind, name), p + 2)
  {
    var ws := PrimaryWords(Inquiry(kind, name));
    assert v[p] == ws[0] && v[p + 1] == ws[1];
  }

  lemma WordIsRead(v: seq<string>, p: nat, w: string, env: Env)
    requires PlainWord(w) && Reads(v, p, [w])
    ensures ParsePrimary(v, p, env.exists_) == PrimaryAt(Word(w), p + 1)
  {
    assert v[p] == [w][0];
  }

  lemma PrefixedParsed(v: seq<string>, p: nat, bang: bool, u: Primary, q: nat, env: Env)
    requires p < |v| && v[p] == (if bang then "!" else "~") && ParsePrimary(v, p + 1, env.exists_) == PrimaryAt(u, q)
    ensures ParsePrimary(v, p, env.exists_) == PrimaryAt(Prefixed(bang, u), q)
  {
  }

  lemma ParenParsed(v: seq<string>, p: nat, e: Tree, q: nat, env: Env)
    requires p < q < |v| && v[p] == "(" && ParseTree(v, p + 1, 0, env.exists_) == TreeAt(e, q) && First(v[q]) == ')'
    ensures ParsePrimary(v, p, env.exists_) == PrimaryAt(Paren(e, v[q]), q + 1)
  {
  }

  lemma PrefixedReads(v: seq<string>, p: nat, bang: bool, u: Primary)
    requires Reads(v, p, PrimaryWords(Prefixed(bang, u)))
    ensures v[p] == (if bang then "!" else "~") && Reads(v, p + 1, PrimaryWords(u))
    ensures |PrimaryWords(Prefixed(bang, u))| == 1 + |PrimaryWords(u)|
  {
    var ws := PrimaryWords(Prefixed(bang, u));
    assert v[p] == ws[0];
    ReadsParts(v, p, [v[p]], [], PrimaryWords(u));
    assert [v[p]] + [] + PrimaryWords(u) == ws;
  }

  lemma ParenReads(v: seq<string>, p: nat, e: Tree, close: string)
    requires Reads(v, p, PrimaryWords(Paren(e, close))) && First(close) == ')'
    ensures var q := p + 1 + |Words(e)|;
            v[p] == "(" && Reads(v, p + 1, Words(e)) && q < |v| && v[q] == close && Stops(v, q, 0)
    ensures |PrimaryWords(Paren(e, close))| == |Words(e)| + 2
  {
    var q := p + 1 + |Words(e)|;
    ReadsParts(v, p, ["("], Words(e), [close]);
    assert v[p] == ["("][0] && v[q] == [close][0];
    CloseStops(v, q);
  }

  lemma CommandIsRead(v: seq<string>, p: nat, words: seq<string>, env: Env)
    requires Reads(v, p, PrimaryWords(Command(words))) && PlainPrimary(Command(words)) && PrimaryShaped(Command(words))
    ensures ParsePrimary(v, p, env.exists_) == PrimaryAt(Command(words), p + |words| + 2)
    ensures |PrimaryWords(Command(words))| == |words| + 2
  {
    var q := p + 1 + |words|;
    ReadsParts(v, p, ["{"], words, ["}"]);
    assert v[p] == ["{"][0] && v[q] == ["}"][0];
    assert v[p + 1..q] == words;
    BraceFound(v, p + 1, q);
  }

  lemma CloseStops(v: seq<string>, q: nat)
    requires q < |v| && First(v[q]) == ')'
    ensures Stops(v, q, 0)
  {
    forall j | 0 <= j <= 4 ensures v[q] != IntOp(j) {
      assert First(IntOp(j)) != ')';
    }
  }

  lemma BraceFound(v: seq<string>, p: nat, q: nat)
    requires p <= q < |v| && v[q] == "}" && forall i :: p <= i < q ==> v[i] != "}"
    ensures FindBrace(v, p) == Some(q)
  {
  }

  lemma OneWord(w: string)
    requires PlainWord(w)
    ensures var e := Num(Leaf(Word(w)));
            Words(e) == [w] && Plain(e) && (forall k: nat :: k <= 4 ==> Shaped(e, k))
  {
    var x, t := Word(w), Leaf(Word(w));
    assert PrimaryWords(x) == [w] && TermWords(t) == [w];
    assert PlainPrimary(x) && PlainTerm(t);
    assert PrimaryShaped(x) && TermShaped(t, 0);
  }

  lemma PlainExamples()
    ensures PlainWord("1") && PlainWord("abc") && EGetN("abc").NoNumber?
  {
    var one, abc := "1", "abc";
    assert |one| == 1 && one[0] == '1' && |abc| == 3 && abc[0] == 'a' && abc[1] == 'b';
  }

  lemma OrWords(w: string)
    requires PlainWord(w)
    ensures var e := Bin(0, Num(Leaf(Word("1"))), Num(Leaf(Word(w))));
            Words(e) == ["1", "||", w] && Plain(e) && Shaped(e, 0)
  {
    var l, r := Num(Leaf(Word("1"))), Num(Leaf(Word(w)));
    PlainExamples();
    OneWord("1");
    OneWord(w);
    assert IntOp(0) == "||" by { assert ["||", "&&", "|", "^", "&"][0] == "||"; }
    assert Words(Bin(0, l, r)) == Words(l) + ["||"] + Words(r);
  }

  // 1 || w has the lazy value 1, but evaluation fails unless w is a number, as it does for
  // the word abc.
  lemma SkippedWordFails(w: string, env: Env, sh: Shifts)
    requires PlainWord(w) && env.sem == Shell(sh) && (forall x :: env.glob(x) == Some(x))
    ensures var r := ExpInt(["1", "||", w], 0, Ignore(false, false), 0, env);
            if EGetN(w).Number? then r == IntAt(1, 3) else r.NoInt?
    ensures PlainWord("abc") && EGetN("abc").NoNumber?
  {
    var v, e := ["1", "||", w], Bin(0, Num(Leaf(Word("1"))), Num(Leaf(Word(w))));
    PlainExamples();
    OrWords(w);
    assert Reads(v, 0, Words(e)) && Stops(v, 3, 0);
    TreeIsRead(v, 0, e, 0, env);
    IntRefines(v, 0, Ignore(false, false), 0, env);
    ExprLaws.SkippedWordMatters(w, env, sh);
  }
}

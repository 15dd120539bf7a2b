// What a simple command is made of (bin/csh/parse.c: syn3): arguments, redirections and
// groups of parentheses, in any order.
module CommandWords {
  import opened Shared
  import opened Parser

  predicate Begins(w: string, c: char) {
    w != "" && w[0] == c
  }

  // < or <<, > or >>, by the second character.
  predicate Doubled(w: string) {
    |w| > 1 && w[1] == w[0]
  }

  datatype Item =
    | Arg(w: string)
    | From(sign: string, name: string)
    | To(sign: string, errors: bool, forced: bool, name: string)
    | Group(open: string, inner: seq<string>, close: string)

  // > takes an & and a ! in front of its name.
  function Text(x: Item): seq<string> {
    match x
    case Arg(w) => [w]
    case From(sign, name) => [sign, name]
    case To(sign, errors, forced, name) =>
      [sign] + (if errors then ["&"] else []) + (if forced then ["!"] else []) + [name]
    case Group(open, inner, close) => [open] + inner + [close]
  }

  predicate IsPlain(w: string) {
    !Begins(w, '<') && !Begins(w, '>') && !Begins(w, '(') && !Begins(w, ')')
  }

  // A name that looks like the & or the ! is taken for it where one may stand.
  ghost predicate Formed(x: Item) {
    match x
    case Arg(w) => IsPlain(w)
    case From(sign, name) => Begins(sign, '<') && IsPlain(name)
    case To(sign, errors, forced, name) =>
      Begins(sign, '>') && IsPlain(name) && (!forced ==> name != "!") && (!errors && !forced ==> name != "&")
    case Group(open, inner, close) => Begins(open, '(') && Balanced(inner) && Begins(close, ')')
  }

  ghost predicate AllFormed(items: seq<Item>) {
    forall k :: 0 <= k < |items| ==> Formed(items[k])
  }

  function Flat(items: seq<Item>): seq<string> {
    if items == [] then [] else Flat(items[..|items| - 1]) + Text(items[|items| - 1])
  }

  // The items of each sort, in order.
  function Froms(items: seq<Item>): (r: seq<Item>)
    ensures forall k :: 0 <= k < |r| ==> r[k].From?
  {
    if items == [] then []
    else Froms(items[..|items| - 1]) + if items[|items| - 1].From? then [items[|items| - 1]] else []
  }

  function Tos(items: seq<Item>): (r: seq<Item>)
    ensures forall k :: 0 <= k < |r| ==> r[k].To?
  {
    if items == [] then []
    else Tos(items[..|items| - 1]) + if items[|items| - 1].To? then [items[|items| - 1]] else []
  }

  function Groups(items: seq<Item>): (r: seq<Item>)
    ensures forall k :: 0 <= k < |r| ==> r[k].Group?
  {
    if items == [] then []
    else Groups(items[..|items| - 1]) + if items[|items| - 1].Group? then [items[|items| - 1]] else []
  }

  // The words saved: those outside redirections and parentheses, and behind a keyword the
  // parentheses and what they hold as well.
  function Words(items: seq<Item>, specp: bool): seq<string> {
    if items == [] then []
    else
      var x := items[|items| - 1];
      Words(items[..|items| - 1], specp) + if x.Arg? || (x.Group? && specp) then Text(x) else []
  }

  // The redirections can be made: one input, not in a pipe's right part, no here document
  // in parentheses; in a pipe's left part one output, and only where errors go down the pipe
  // too. One group of parentheses.
  predicate Permitted(items: seq<Item>, specp: bool, flags: Flags) {
    var ins, outs := Froms(items), Tos(items);
    && |ins| <= 1
    && (|ins| == 1 ==> !flags.pin && !(flags.here && Doubled(ins[0].sign)))
    && (flags.pout ==> |outs| <= 1 && (|outs| == 1 ==> flags.perr))
    && (flags.pout || flags.perr ==> forall k :: 0 <= k < |outs| ==> !outs[k].errors)
    && (specp || |Groups(items)| <= 1)
  }

  // What the redirections ask for: the last output counts, and any sign for each flag.
  ghost function Asked(items: seq<Item>): Redirs {
    var ins, outs := Froms(items), Tos(items);
    Redirs(
      if ins == [] then None else Some(ins[|ins| - 1].name),
      exists k :: 0 <= k < |ins| && Doubled(ins[k].sign),
      if outs == [] then None else Some(outs[|outs| - 1].name),
      exists k :: 0 <= k < |outs| && Doubled(outs[k].sign),
      exists k :: 0 <= k < |outs| && outs[k].errors,
      exists k :: 0 <= k < |outs| && outs[k].forced)
  }

  // ----- the fill loop over the items -----

  lemma AskedFrom(items: seq<Item>, x: Item)
    requires x.From?
    ensures Asked(items + [x]) ==
            (var rd := Asked(items); rd.(input := Some(x.name), read := rd.read || Doubled(x.sign)))
  {
    var a, b := Froms(items), Froms(items + [x]);
    assert (items + [x])[..|items|] == items;
    assert b == a + [x] && Tos(items + [x]) == Tos(items);
    assert b[|a|] == x && forall k :: 0 <= k < |a| ==> b[k] == a[k];
  }

  lemma AskedTo(items: seq<Item>, x: Item)
    requires x.To?
    ensures Asked(items + [x]) ==
            (var rd := Asked(items);
             rd.(output := Some(x.name), append := rd.append || Doubled(x.sign),
                 stderr := rd.stderr || x.errors, overwrite := rd.overwrite || x.forced))
  {
    var a, b := Tos(items), Tos(items + [x]);
    assert (items + [x])[..|items|] == items;
    assert b == a + [x] && Froms(items + [x]) == Froms(items);
    assert b[|a|] == x && forall k :: 0 <= k < |a| ==> b[k] == a[k];
  }

  lemma AskedOther(items: seq<Item>, x: Item)
    requires x.Arg? || x.Group?
    ensures Asked(items + [x]) == Asked(items)
  {
    assert (items + [x])[..|items|] == items;
    assert Tos(items + [x]) == Tos(items) && Froms(items + [x]) == Froms(items);
  }

  // The words ws stand at p.
  predicate Stands(seg: seq<string>, p: nat, ws: seq<string>) {
    p + |ws| <= |seg| && forall k :: 0 <= k < |ws| ==> ws[k] == seg[p + k]
  }

  // One item over: the state behind it when it is permitted behind what was gathered.
  function Over(st: Fill, x: Item, specp: bool): Fill {
    var n := st.i + |Text(x)|;
    match x
    case Arg(w) => st.(i := n, av := st.av + [w])
    case From(sign, name) =>
      st.(i := n, redirs := st.redirs.(input := Some(name), read := st.redirs.read || Doubled(sign)))
    case To(sign, errors, forced, name) =>
      st.(i := n, redirs := st.redirs.(
            output := Some(name), append := st.redirs.append || Doubled(sign),
            stderr := st.redirs.stderr || errors, overwrite := st.redirs.overwrite || forced))
    case Group(_, _, _) =>
      st.(i := n, lp := Some(st.i + 1), rp := Some(n - 1), av := if specp then st.av + Text(x) else st.av)
  }

  // Whether it is.
  predicate Goes(st: Fill, x: Item, specp: bool, flags: Flags) {
    match x
    case Arg(_) => true
    case From(sign, _) =>
      !flags.pin && st.redirs.input.None? && !(flags.here && (st.redirs.read || Doubled(sign)))
    case To(_, errors, _, _) =>
      (flags.pout ==> flags.perr && st.redirs.output.None?) && (errors ==> !flags.pout && !flags.perr)
    case Group(_, _, _) => specp || st.lp.None?
  }

  lemma FromStep(seg: seq<string>, st: Fill, x: Item, specp: bool, flags: Flags)
    requires x.From? && Formed(x) && Stands(seg, st.i, Text(x)) && st.l == 0 && st.err.None?
    ensures var r := FillStep(seg, st, specp, flags);
            if Goes(st, x, specp, flags) then r == Over(st, x, specp) else r.err.Some?
  {
    assert seg[st.i] == Text(x)[0] && seg[st.i + 1] == Text(x)[1];
  }

  lemma ToStep(seg: seq<string>, st: Fill, x: Item, specp: bool, flags: Flags)
    requires x.To? && Formed(x) && Stands(seg, st.i, Text(x)) && st.l == 0 && st.err.None?
    ensures var r := FillStep(seg, st, specp, flags);
            if Goes(st, x, specp, flags) then r == Over(st, x, specp) else r.err.Some?
  {
    ToReads(seg, st.i, x);
    if x.errors && x.forced {
      assert |Text(x)| == 4;
    } else if x.errors || x.forced {
      assert |Text(x)| == 3;
    } else {
      assert |Text(x)| == 2;
    }
  }

  lemma ToReads(seg: seq<string>, p: nat, x: Item)
    requires x.To? && Stands(seg, p, Text(x))
    ensures var n := p + |Text(x)|;
            && p + 2 <= n <= |seg| && seg[p] == x.sign && seg[n - 1] == x.name
            && (x.errors ==> p + 3 <= n && seg[p + 1] == "&") && (x.forced ==> p + 3 <= n && seg[n - 2] == "!")
  {
    var ws := Text(x);
    assert ws[0] == x.sign && ws[|ws| - 1] == x.name;
    assert x.errors ==> ws[1] == "&";
    assert x.forced ==> ws[|ws| - 2] == "!";
  }

  lemma ArgStep(seg: seq<string>, st: Fill, x: Item, specp: bool, flags: Flags)
    requires x.Arg? && Formed(x) && Stands(seg, st.i, Text(x)) && st.l == 0 && st.err.None?
    ensures FillStep(seg, st, specp, flags) == Over(st, x, specp)
  {
    assert seg[st.i] == Text(x)[0];
  }

  // Inside parentheses the words are saved behind a keyword, and else passed over.
  lemma {:induction false} InsideRun(seg: seq<string>, lo: nat, inner: seq<string>, j: nat,
                                     st: Fill, specp: bool, flags: Flags)
    requires Stands(seg, lo, inner) && Balanced(inner) && j <= |inner|
    requires st.i == lo + j && st.l == 1 + Depth(inner, j)
    ensures FillFrom(seg, st, specp, flags) ==
            FillFrom(seg, st.(i := lo + |inner|, l := 1, av := if specp then st.av + inner[j..] else st.av),
                     specp, flags)
    decreases |inner| - j
  {
    if j < |inner| {
      assert seg[st.i] == inner[j];
      var r := FillStep(seg, st, specp, flags);
      assert Depth(inner, j + 1) >= 0;
      assert r == st.(i := st.i + 1, l := 1 + Depth(inner, j + 1), av := if specp then st.av + [inner[j]] else st.av);
      InsideRun(seg, lo, inner, j + 1, r, specp, flags);
      assert [inner[j]] + inner[j + 1..] == inner[j..];
      assert st.av + [inner[j]] + inner[j + 1..] == st.av + ([inner[j]] + inner[j + 1..]);
    } else {
      assert inner[j..] == [] && st.av + [] == st.av;
    }
  }

  lemma GroupStands(seg: seq<string>, p: nat, x: Item)
    requires x.Group? && Stands(seg, p, Text(x))
    ensures var n := p + |Text(x)|;
            && n == p + 2 + |x.inner| <= |seg| && seg[p] == x.open && seg[n - 1] == x.close
            && Stands(seg, p + 1, x.inner) && seg[p + 1..n - 1] == x.inner
  {
    var ws, n := Text(x), p + |Text(x)|;
    assert ws[0] == x.open && ws[|ws| - 1] == x.close;
    assert forall k :: 0 <= k < |x.inner| ==> ws[k + 1] == x.inner[k];
  }

  lemma GroupRun(seg: seq<string>, st: Fill, x: Item, specp: bool, flags: Flags)
    requires x.Group? && Formed(x) && Stands(seg, st.i, Text(x)) && st.l == 0 && st.err.None?
    requires Goes(st, x, specp, flags)
    ensures FillFrom(seg, st, specp, flags) == FillFrom(seg, Over(st, x, specp), specp, flags)
  {
    var st1 := st.(i := st.i + 1, l := 1, lp := Some(st.i + 1), av := if specp then st.av + [x.open] else st.av);
    var st2 := st1.(i := st1.i + |x.inner|, av := if specp then st1.av + x.inner else st1.av);
    GroupStands(seg, st.i, x);
    OneStep(seg, st, st1, specp, flags);
    InsideWhole(seg, x.inner, st1, st2, specp, flags);
    GroupClosed(seg, st, x, st2, specp);
    OneStep(seg, st2, Over(st, x, specp), specp, flags);
  }

  lemma OneStep(seg: seq<string>, st: Fill, r: Fill, specp: bool, flags: Flags)
    requires st.i < |seg| && r == FillStep(seg, st, specp, flags)
    ensures FillFrom(seg, st, specp, flags) == FillFrom(seg, r, specp, flags)
  {
  }

  lemma InsideWhole(seg: seq<string>, inner: seq<string>, st: Fill, r: Fill, specp: bool, flags: Flags)
    requires Stands(seg, st.i, inner) && Balanced(inner) && st.l == 1
    requires r == st.(i := st.i + |inner|, av := if specp then st.av + inner else st.av)
    ensures FillFrom(seg, st, specp, flags) == FillFrom(seg, r, specp, flags)
  {
    InsideRun(seg, st.i, inner, 0, st, specp, flags);
    assert inner[0..] == inner;
  }

  lemma GroupClosed(seg: seq<string>, st: Fill, x: Item, st2: Fill, specp: bool)
    requires x.Group? && Formed(x) && Stands(seg, st.i, Text(x)) && st.l == 0
    requires st2 == st.(i := st.i + 1 + |x.inner|, l := 1, lp := Some(st.i + 1),
                        av := if specp then st.av + [x.open] + x.inner else st.av)
    ensures st2.i < |seg| && Begins(seg[st2.i], ')') && CloseParen(seg, st2, specp) == Over(st, x, specp)
  {
    GroupStands(seg, st.i, x);
    if specp { assert st.av + [x.open] + x.inner + [x.close] == st.av + Text(x); }
  }

  lemma {:induction false} ErrorsStay(seg: seq<string>, st: Fill, specp: bool, flags: Flags)
    requires st.i <= |seg| && st.err.Some?
    ensures FillFrom(seg, st, specp, flags).err.Some?
    decreases |seg| - st.i
  {
    if st.i < |seg| { ErrorsStay(seg, FillStep(seg, st, specp, flags), specp, flags); }
  }

  // The loop goes over an item, or has raised an error at its end.
  lemma ItemRun(seg: seq<string>, st: Fill, x: Item, specp: bool, flags: Flags)
    requires Formed(x) && Stands(seg, st.i, Text(x)) && st.l == 0 && st.err.None?
    ensures if Goes(st, x, specp, flags)
            then FillFrom(seg, st, specp, flags) == FillFrom(seg, Over(st, x, specp), specp, flags)
            else FillFrom(seg, st, specp, flags).err.Some?
  {
    match x
    case Arg(_) => ArgStep(seg, st, x, specp, flags);
    case From(_, _) =>
      FromStep(seg, st, x, specp, flags);
      if !Goes(st, x, specp, flags) { ErrorsStay(seg, FillStep(seg, st, specp, flags), specp, flags); }
    case To(_, _, _, _) =>
      ToStep(seg, st, x, specp, flags);
      if !Goes(st, x, specp, flags) { ErrorsStay(seg, FillStep(seg, st, specp, flags), specp, flags); }
    case Group(_, _, _) =>
      if Goes(st, x, specp, flags) {
        GroupRun(seg, st, x, specp, flags);
      } else {
        GroupStands(seg, st.i, x);
        ErrorsStay(seg, FillStep(seg, st, specp, flags), specp, flags);
      }
  }

  // What was gathered is what the items say.
  ghost predicate Holds(seg: seq<string>, st: Fill, items: seq<Item>, specp: bool) {
    && st.i == |Flat(items)| && st.l == 0 && st.err.None? && st.av == Words(items, specp) && st.redirs == Asked(items)
    && (!specp ==> Grouped(seg, st, Groups(items)))
  }

  // The words between the parentheses.
  predicate Grouped(seg: seq<string>, st: Fill, groups: seq<Item>) {
    && (st.lp.Some? <==> groups != [])
    && (st.lp.Some? ==>
          st.rp.Some? && st.lp.value <= st.rp.value <= |seg| && groups[|groups| - 1].Group?
          && seg[st.lp.value..st.rp.value] == groups[|groups| - 1].inner)
  }

  lemma Last(items: seq<Item>, x: Item)
    ensures (items + [x])[..|items|] == items && (items + [x])[|items|] == x
  {
  }

  lemma HoldsOver(seg: seq<string>, st: Fill, items: seq<Item>, x: Item, specp: bool)
    requires Holds(seg, st, items, specp) && Stands(seg, st.i, Text(x))
    ensures Holds(seg, Over(st, x, specp), items + [x], specp)
  {
    Last(items, x);
    match x
    case Arg(_) => AskedOther(items, x);
    case From(_, _) => AskedFrom(items, x);
    case To(_, _, _, _) => AskedTo(items, x);
    case Group(_, _, _) => HoldsOverGroup(seg, st, items, x, specp);
  }

  lemma HoldsOverGroup(seg: seq<string>, st: Fill, items: seq<Item>, x: Item, specp: bool)
    requires x.Group? && Holds(seg, st, items, specp) && Stands(seg, st.i, Text(x))
    ensures Holds(seg, Over(st, x, specp), items + [x], specp)
  {
    Last(items, x);
    AskedOther(items, x);
    GroupStands(seg, st.i, x);
    assert Groups(items + [x]) == Groups(items) + [x];
  }

  lemma PermittedOver(seg: seq<string>, st: Fill, items: seq<Item>, x: Item, specp: bool, flags: Flags)
    requires Holds(seg, st, items, specp) && Permitted(items, specp, flags)
    ensures Permitted(items + [x], specp, flags) <==> Goes(st, x, specp, flags)
  {
    Last(items, x);
    var outs := Tos(items);
    if x.To? {
      assert Tos(items + [x]) == outs + [x] && Tos(items + [x])[|outs|] == x;
      assert forall k :: 0 <= k < |outs| ==> Tos(items + [x])[k] == outs[k];
    }
  }

  // ----- every list of items -----

  lemma FlatSnoc(items: seq<Item>, x: Item)
    ensures Flat(items + [x]) == Flat(items) + Text(x)
  {
    Last(items, x);
  }

  lemma Associates(a: seq<string>, b: seq<string>, c: seq<string>)
    ensures a + b + c == a + (b + c)
  {
  }

  ghost predicate Lays(f: seq<Item> -> seq<string>) {
    f([]) == [] && forall items, x {:trigger f(items + [x])} :: f(items + [x]) == f(items) + Text(x)
  }

  lemma {:induction false} LaidConcat(f: seq<Item> -> seq<string>, a: seq<Item>, b: seq<Item>)
    requires Lays(f)
    ensures f(a + b) == f(a) + f(b)
    decreases |b|
  {
    if b == [] {
      assert a + b == a;
    } else {
      var front, x := b[..|b| - 1], b[|b| - 1];
      assert a + front + [x] == a + b && front + [x] == b;
      LaidConcat(f, a, front);
      assert f(a + front + [x]) == f(a + front) + Text(x) && f(front + [x]) == f(front) + Text(x);
      Associates(f(a), f(front), Text(x));
    }
  }

  lemma FlatConcat(a: seq<Item>, b: seq<Item>)
    ensures Flat(a + b) == Flat(a) + Flat(b)
  {
    var f := items => Flat(items);
    forall items, x ensures f(items + [x]) == f(items) + Text(x) { FlatSnoc(items, x); }
    LaidConcat(f, a, b);
  }

  // Item n stands where the text of those in front ends.
  lemma NextStands(items: seq<Item>, n: nat)
    requires n < |items|
    ensures items[..n] + [items[n]] == items[..n + 1]
    ensures Stands(Flat(items), |Flat(items[..n])|, Text(items[n]))
  {
    var front, x := items[..n], items[n];
    assert front + [x] == items[..n + 1] && items[..n + 1] + items[n + 1..] == items;
    FlatConcat(front + [x], items[n + 1..]);
    Last(front, x);
    Middle(Flat(front), Text(x), Flat(items[n + 1..]));
  }

  lemma Middle(a: seq<string>, b: seq<string>, c: seq<string>)
    ensures Stands(a + b + c, |a|, b)
  {
  }

  lemma {:induction false} NotPermittedLater(items: seq<Item>, n: nat, specp: bool, flags: Flags)
    requires n <= |items| && !Permitted(items[..n], specp, flags)
    ensures !Permitted(items, specp, flags)
    decreases |items| - n
  {
    if n == |items| {
      assert items[..n] == items;
    } else {
      assert items[..n] + [items[n]] == items[..n + 1];
      StillNotPermitted(items[..n], items[n], specp, flags);
      NotPermittedLater(items, n + 1, specp, flags);
    }
  }

  lemma StillNotPermitted(items: seq<Item>, x: Item, specp: bool, flags: Flags)
    requires !Permitted(items, specp, flags)
    ensures !Permitted(items + [x], specp, flags)
  {
    Last(items, x);
    var outs, more := Tos(items), Tos(items + [x]);
    assert |more| >= |outs| && forall k :: 0 <= k < |outs| ==> more[k] == outs[k];
  }

  // What is known in front of item n, or in the end.
  ghost predicate Result(seg: seq<string>, r: Fill, items: seq<Item>, specp: bool, flags: Flags) {
    && (r.err.None? <==> Permitted(items, specp, flags))
    && (r.err.None? ==> Holds(seg, r, items, specp))
  }

  lemma {:induction false} ItemsRun(seg: seq<string>, items: seq<Item>, n: nat, st: Fill, specp: bool, flags: Flags)
    requires seg == Flat(items) && AllFormed(items) && n <= |items| && st.i <= |seg|
    requires Permitted(items[..n], specp, flags) && Holds(seg, st, items[..n], specp)
    ensures Result(seg, FillFrom(seg, st, specp, flags), items, specp, flags)
    decreases |items| - n
  {
    if n == |items| {
      assert items[..n] == items;
    } else {
      NextStands(items, n);
      var next := ItemOver(seg, items, n, st, specp, flags);
      if next.err.None? {
        ItemsRun(seg, items, n + 1, next, specp, flags);
      } else {
        NotPermittedLater(items, n + 1, specp, flags);
      }
    }
  }

  lemma ItemOver(seg: seq<string>, items: seq<Item>, n: nat, st: Fill, specp: bool, flags: Flags) returns (next: Fill)
    requires AllFormed(items) && n < |items| && items[..n] + [items[n]] == items[..n + 1]
    requires Permitted(items[..n], specp, flags) && Holds(seg, st, items[..n], specp)
    requires Stands(seg, st.i, Text(items[n]))
    ensures next.err.None? ==>
              && st.i <= next.i <= |seg| && FillFrom(seg, st, specp, flags) == FillFrom(seg, next, specp, flags)
              && Permitted(items[..n + 1], specp, flags) && Holds(seg, next, items[..n + 1], specp)
    ensures next.err.Some? ==>
              FillFrom(seg, st, specp, flags).err.Some? && !Permitted(items[..n + 1], specp, flags)
  {
    var x := items[n];
    ItemRun(seg, st, x, specp, flags);
    PermittedOver(seg, st, items[..n], x, specp, flags);
    if Goes(st, x, specp, flags) {
      HoldsOver(seg, st, items[..n], x, specp);
      next := Over(st, x, specp);
    } else {
      next := Raise(st, MisRed);
    }
  }

  // For every list of items in any order, gathering their text raises an error exactly
  // when they are not permitted together, and else gives their words in order, what the
  // redirections ask for, and the group.
  lemma ItemsGathered(items: seq<Item>, specp: bool, flags: Flags)
    requires AllFormed(items)
    ensures Result(Flat(items), FillFrom(Flat(items), FillStart, specp, flags), items, specp, flags)
  {
    assert items[..0] == [];
    assert Flat([]) == [] && Words([], specp) == [] && Asked([]) == NoRedirs;
    ItemsRun(Flat(items), items, 0, FillStart, specp, flags);
  }

  // ----- every command is made of items -----

  // The parenthesis that closes the one in front of lo.
  lemma {:induction false} Closing(seg: seq<string>, lo: nat, k: nat) returns (hi: nat)
    requires lo <= k <= |seg| && Depth(seg, |seg|) < Depth(seg, lo)
    requires forall j :: lo <= j <= k ==> Depth(seg, j) >= Depth(seg, lo)
    ensures lo <= hi < |seg| && Begins(seg[hi], ')') && Depth(seg, hi) == Depth(seg, lo)
    ensures forall j :: lo <= j <= hi ==> Depth(seg, j) >= Depth(seg, lo)
    decreases |seg| - k
  {
    if Begins(seg[k], ')') && Depth(seg, k) == Depth(seg, lo) {
      hi := k;
    } else {
      assert Depth(seg, k + 1) >= Depth(seg, lo);
      hi := Closing(seg, lo, k + 1);
    }
  }

  // An item stands at p, outside parentheses.
  ghost predicate ItemAt(seg: seq<string>, p: nat, x: Item) {
    Formed(x) && Stands(seg, p, Text(x)) && Depth(seg, p + |Text(x)|) == 0
  }

  lemma FirstItem(seg: seq<string>, p: nat, st: Fill, specp: bool, flags: Flags) returns (x: Item)
    requires Balanced(seg) && p < |seg| && Depth(seg, p) == 0
    requires st.i == p && st.l == 0 && st.err.None? && FillStep(seg, st, specp, flags).err.None?
    ensures ItemAt(seg, p, x)
  {
    if Begins(seg[p], '(') {
      x := FirstGroup(seg, p);
    } else if Begins(seg[p], '<') {
      x := FirstFrom(seg, p, st, flags);
    } else if Begins(seg[p], '>') {
      x := FirstTo(seg, p, st, flags);
    } else {
      assert Depth(seg, p + 1) >= 0;
      x := Arg(seg[p]);
    }
  }

  lemma FirstGroup(seg: seq<string>, p: nat) returns (x: Item)
    requires Balanced(seg) && p < |seg| && Depth(seg, p) == 0 && Begins(seg[p], '(')
    ensures ItemAt(seg, p, x)
  {
    assert Depth(seg, p + 1) == 1;
    var hi := Closing(seg, p + 1, p + 1);
    Between(seg, p + 1, hi);
    x := Group(seg[p], seg[p + 1..hi], seg[hi]);
    assert Depth(seg, hi + 1) == 0;
  }

  lemma FirstFrom(seg: seq<string>, p: nat, st: Fill, flags: Flags) returns (x: Item)
    requires p < |seg| && Depth(seg, p) == 0 && Begins(seg[p], '<')
    requires st.i == p && st.err.None? && InputRedir(seg, st, flags).err.None?
    ensures ItemAt(seg, p, x)
  {
    x := From(seg[p], seg[p + 1]);
    PlainDepth(seg, p);
    PlainDepth(seg, p + 1);
  }

  lemma PlainDepth(seg: seq<string>, k: nat)
    requires k < |seg| && !Begins(seg[k], '(') && !Begins(seg[k], ')')
    ensures Depth(seg, k + 1) == Depth(seg, k)
  {
  }

  lemma FirstTo(seg: seq<string>, p: nat, st: Fill, flags: Flags) returns (x: Item)
    requires p < |seg| && Depth(seg, p) == 0 && Begins(seg[p], '>')
    requires st.i == p && st.err.None? && OutputRedir(seg, st, flags).err.None?
    ensures ItemAt(seg, p, x)
  {
    var errors := seg[p + 1] == "&";
    var q := if errors then p + 2 else p + 1;
    var forced := seg[q] == "!";
    var n := if forced then q + 1 else q;
    x := To(seg[p], errors, forced, seg[n]);
    ToStands(seg, p, x);
    PlainDepth(seg, p);
    PlainDepth(seg, p + 1);
    if errors || forced { PlainDepth(seg, p + 2); }
    if errors && forced { PlainDepth(seg, p + 3); }
  }

  lemma ToStands(seg: seq<string>, p: nat, x: Item)
    requires x.To? && p + |Text(x)| <= |seg| && seg[p] == x.sign && seg[p + |Text(x)| - 1] == x.name
    requires (x.errors ==> seg[p + 1] == "&") && (x.forced ==> seg[p + |Text(x)| - 2] == "!")
    ensures Stands(seg, p, Text(x))
  {
    var ws := Text(x);
    assert ws[0] == x.sign && ws[|ws| - 1] == x.name;
    assert x.errors ==> ws[1] == "&";
    assert x.forced ==> ws[|ws| - 2] == "!";
    assert |ws| == (if x.errors then 1 else 0) + (if x.forced then 1 else 0) + 2;
  }

  lemma FlatFront(x: Item, rest: seq<Item>)
    ensures Flat([x] + rest) == Text(x) + Flat(rest)
  {
    FlatConcat([x], rest);
    FlatSnoc([], x);
    assert [] + [x] == [x] && [] + Text(x) == Text(x);
  }

  // What is gathered without an error is the text of some items.
  lemma {:induction false} Itemised(seg: seq<string>, st: Fill, specp: bool, flags: Flags) returns (items: seq<Item>)
    requires Balanced(seg) && Clean(seg, st, specp, flags)
    ensures AllFormed(items) && st.i <= |seg| && Flat(items) == seg[st.i..]
    decreases |seg| - st.i
  {
    if st.i == |seg| {
      items := [];
    } else {
      var x, next := FirstOf(seg, st, specp, flags);
      var rest := Itemised(seg, next, specp, flags);
      items := [x] + rest;
      Grown(seg, st.i, x, rest);
    }
  }

  // The loop goes on from here without an error.
  ghost predicate Clean(seg: seq<string>, st: Fill, specp: bool, flags: Flags) {
    && st.i <= |seg| && Depth(seg, st.i) == 0 && st.l == 0 && st.err.None?
    && FillFrom(seg, st, specp, flags).err.None?
  }

  lemma Grown(seg: seq<string>, p: nat, x: Item, rest: seq<Item>)
    requires Formed(x) && Stands(seg, p, Text(x)) && AllFormed(rest) && Flat(rest) == seg[p + |Text(x)|..]
    ensures AllFormed([x] + rest) && Flat([x] + rest) == seg[p..]
  {
    FlatFront(x, rest);
    CutAt(seg, p, Text(x));
  }

  lemma CutAt(seg: seq<string>, p: nat, ws: seq<string>)
    requires Stands(seg, p, ws)
    ensures ws + seg[p + |ws|..] == seg[p..]
  {
  }

  lemma FirstOf(seg: seq<string>, st: Fill, specp: bool, flags: Flags) returns (x: Item, next: Fill)
    requires Balanced(seg) && Clean(seg, st, specp, flags) && st.i < |seg|
    ensures Formed(x) && Stands(seg, st.i, Text(x))
    ensures next.i == st.i + |Text(x)| > st.i && Clean(seg, next, specp, flags)
  {
    var r := FillStep(seg, st, specp, flags);
    OneStep(seg, st, r, specp, flags);
    if r.err.Some? { ErrorsStay(seg, r, specp, flags); }
    x := FirstItem(seg, st.i, st, specp, flags);
    ItemRun(seg, st, x, specp, flags);
    next := Over(st, x, specp);
  }

  // So the segments from which arguments and redirections are gathered without an error are
  // the texts of the item lists that are permitted.
  lemma GatheredExactly(seg: seq<string>, specp: bool, flags: Flags)
    requires Balanced(seg)
    ensures FillFrom(seg, FillStart, specp, flags).err.None? <==>
            exists items :: AllFormed(items) && Flat(items) == seg && Permitted(items, specp, flags)
  {
    if FillFrom(seg, FillStart, specp, flags).err.None? {
      var items := Itemised(seg, FillStart, specp, flags);
      assert seg[0..] == seg;
      ItemsGathered(items, specp, flags);
    }
    if items :| AllFormed(items) && Flat(items) == seg && Permitted(items, specp, flags) {
      ItemsGathered(items, specp, flags);
    }
  }
}

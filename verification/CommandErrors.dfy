// The errors of a simple command (bin/csh/parse.c: syn3): where gathering its words and
// redirections goes wrong first, and with which error.
module CommandErrors {
  import opened Shared
  import opened Parser
  import opened CommandWords

  // No name stands at p.
  predicate Nameless(seg: seq<string>, p: nat) {
    p >= |seg| || !IsPlain(seg[p])
  }

  // The place of the name behind a >.
  function NameAt(tail: seq<string>): nat {
    var q := if |tail| > 1 && tail[1] == "&" then 2 else 1;
    if |tail| > q && tail[q] == "!" then q + 1 else q
  }

  // What is left begins with something that may not stand behind the items: a redirection
  // without its name, a here document in parentheses, a second input, an input in a pipe's
  // right part or an output in its left, or a second group.
  predicate Offends(e: Error, items: seq<Item>, tail: seq<string>, specp: bool, flags: Flags) {
    && tail != []
    && if Begins(tail[0], '<') then FromOffends(e, tail, Froms(items) != [], flags)
       else if Begins(tail[0], '>') then ToOffends(e, tail, Tos(items) != [], flags)
       else Begins(tail[0], '(') && !specp && Groups(items) != [] && e == BadPLP
  }

  predicate FromOffends(e: Error, tail: seq<string>, again: bool, flags: Flags)
    requires tail != []
  {
    if Nameless(tail, 1) then e == MisRed
    else if flags.here && Doubled(tail[0]) then e == RedPar
    else (flags.pin || again) && e == InRed
  }

  predicate ToOffends(e: Error, tail: seq<string>, again: bool, flags: Flags) {
    if |tail| > 1 && tail[1] == "&" && (flags.pout || flags.perr) then e == OutRed
    else if Nameless(tail, NameAt(tail)) then e == MisRed
    else flags.pout && (!flags.perr || again) && e == OutRed
  }

  // The segment goes wrong behind the items.
  ghost predicate Offence(e: Error, items: seq<Item>, tail: seq<string>, seg: seq<string>, specp: bool, flags: Flags) {
    && AllFormed(items) && Permitted(items, specp, flags) && seg == Flat(items) + tail
    && Offends(e, items, tail, specp, flags)
  }

  // ----- the step that raises it -----

  lemma FromRaises(e: Error, seg: seq<string>, st: Fill, tail: seq<string>, flags: Flags)
    requires st.i < |seg| && Begins(seg[st.i], '<') && tail == seg[st.i..]
    requires st.err.None? && (flags.here ==> !st.redirs.read)
    ensures InputRedir(seg, st, flags).err == Some(e) <==> FromOffends(e, tail, st.redirs.input.Some?, flags)
  {
    assert tail[0] == seg[st.i] && (|tail| > 1 ==> tail[1] == seg[st.i + 1]);
  }

  lemma ToRaises(e: Error, seg: seq<string>, st: Fill, tail: seq<string>, flags: Flags)
    requires st.i < |seg| && Begins(seg[st.i], '>') && tail == seg[st.i..] && st.err.None?
    ensures OutputRedir(seg, st, flags).err == Some(e) <==> ToOffends(e, tail, st.redirs.output.Some?, flags)
  {
    assert forall k :: 0 <= k < |tail| ==> tail[k] == seg[st.i + k];
  }

  // What was gathered in front, as far as it matters behind.
  lemma HoldsSays(seg: seq<string>, st: Fill, items: seq<Item>, specp: bool, flags: Flags)
    requires Holds(seg, st, items, specp) && Permitted(items, specp, flags)
    ensures st.err.None? && st.l == 0 && (!specp ==> (st.lp.Some? <==> Groups(items) != []))
    ensures flags.here ==> !st.redirs.read
    ensures (st.redirs.input.Some? <==> Froms(items) != []) && (st.redirs.output.Some? <==> Tos(items) != [])
  {
  }

  lemma StepRaises(e: Error, seg: seq<string>, st: Fill, items: seq<Item>, specp: bool, flags: Flags)
    requires Holds(seg, st, items, specp) && Permitted(items, specp, flags) && st.i < |seg|
    ensures FillStep(seg, st, specp, flags).err == Some(e) <==> Offends(e, items, seg[st.i..], specp, flags)
  {
    HoldsSays(seg, st, items, specp, flags);
    PlaceRaises(e, seg, st, seg[st.i..], Froms(items) != [], Tos(items) != [], Groups(items) != [], specp, flags);
  }

  lemma PlaceRaises(e: Error, seg: seq<string>, st: Fill, tail: seq<string>,
          ins: bool, outs: bool, groups: bool, specp: bool, flags: Flags)
    requires st.i < |seg| && tail == seg[st.i..] && st.err.None? && st.l == 0 && (flags.here ==> !st.redirs.read)
    requires (st.redirs.input.Some? <==> ins) && (st.redirs.output.Some? <==> outs)
    requires !specp ==> (st.lp.Some? <==> groups)
    ensures FillStep(seg, st, specp, flags).err == Some(e) <==>
            if Begins(tail[0], '<') then FromOffends(e, tail, ins, flags)
            else if Begins(tail[0], '>') then ToOffends(e, tail, outs, flags)
            else Begins(tail[0], '(') && !specp && groups && e == BadPLP
  {
    assert tail[0] == seg[st.i];
    if Begins(tail[0], '<') {
      FromRaises(e, seg, st, tail, flags);
    } else if Begins(tail[0], '>') {
      ToRaises(e, seg, st, tail, flags);
    }
  }

  // The first error is the one that counts.
  lemma {:induction false} FirstErrorCounts(seg: seq<string>, st: Fill, specp: bool, flags: Flags)
    requires st.i <= |seg| && st.err.Some?
    ensures FillFrom(seg, st, specp, flags).err == st.err
    decreases |seg| - st.i
  {
    if st.i < |seg| {
      ErrorStays(seg, st, specp, flags);
      FirstErrorCounts(seg, FillStep(seg, st, specp, flags), specp, flags);
    }
  }

  lemma ErrorStays(seg: seq<string>, st: Fill, specp: bool, flags: Flags)
    requires st.i < |seg| && st.err.Some?
    ensures FillStep(seg, st, specp, flags).err == st.err
  {
  }

  // ----- over the items -----

  lemma ItemBehind(front: seq<string>, ws: seq<string>, tail: seq<string>)
    ensures front + ws + tail == front + (ws + tail) && Stands(front + ws + tail, |front|, ws)
    ensures (front + ws + tail)[|front| + |ws|..] == tail
  {
  }

  lemma PermittedInFront(items: seq<Item>, x: Item, specp: bool, flags: Flags)
    requires Permitted(items + [x], specp, flags)
    ensures Permitted(items, specp, flags)
  {
    if !Permitted(items, specp, flags) { StillNotPermitted(items, x, specp, flags); }
  }

  // The loop comes over items that are permitted.
  lemma {:induction false} Reached(items: seq<Item>, tail: seq<string>, seg: seq<string>, specp: bool, flags: Flags)
      returns (st: Fill)
    requires AllFormed(items) && Permitted(items, specp, flags) && seg == Flat(items) + tail
    ensures Holds(seg, st, items, specp) && st.i <= |seg| && seg[st.i..] == tail
    ensures FillFrom(seg, FillStart, specp, flags) == FillFrom(seg, st, specp, flags)
    decreases |items|
  {
    if items == [] {
      StartHolds(seg, specp);
      st := FillStart;
      assert seg[0..] == seg && [] + tail == tail;
    } else {
      var front, x := items[..|items| - 1], items[|items| - 1];
      FrontFormed(items, front, x);
      FrontPermitted(items, front, x, specp, flags);
      FrontWords(items, front, x, tail);
      var was := Reached(front, Text(x) + tail, seg, specp, flags);
      st := OneOver(seg, was, front, x, specp, flags);
    }
  }

  lemma FrontFormed(items: seq<Item>, front: seq<Item>, x: Item)
    requires items != [] && front == items[..|items| - 1] && x == items[|items| - 1] && AllFormed(items)
    ensures front + [x] == items && AllFormed(front) && Formed(x)
  {
  }

  lemma FrontPermitted(items: seq<Item>, front: seq<Item>, x: Item, specp: bool, flags: Flags)
    requires front + [x] == items && Permitted(items, specp, flags)
    ensures Permitted(front, specp, flags) && Permitted(front + [x], specp, flags)
  {
    PermittedInFront(front, x, specp, flags);
  }

  lemma FrontWords(items: seq<Item>, front: seq<Item>, x: Item, tail: seq<string>)
    requires front + [x] == items
    ensures var seg := Flat(items) + tail;
            && seg == Flat(front) + (Text(x) + tail) && Stands(seg, |Flat(front)|, Text(x))
            && |Flat(items)| == |Flat(front)| + |Text(x)| && seg[|Flat(items)|..] == tail
  {
    FlatSnoc(front, x);
    ItemBehind(Flat(front), Text(x), tail);
  }

  lemma StartHolds(seg: seq<string>, specp: bool)
    ensures Holds(seg, FillStart, [], specp) && Flat([]) == []
  {
    assert Words([], specp) == [] && Asked([]) == NoRedirs;
  }

  lemma OneOver(seg: seq<string>, was: Fill, front: seq<Item>, x: Item, specp: bool, flags: Flags) returns (st: Fill)
    requires Holds(seg, was, front, specp) && Permitted(front, specp, flags) && Permitted(front + [x], specp, flags)
    requires Formed(x) && Stands(seg, was.i, Text(x))
    ensures Holds(seg, st, front + [x], specp) && st.i == was.i + |Text(x)| <= |seg|
    ensures FillFrom(seg, was, specp, flags) == FillFrom(seg, st, specp, flags)
  {
    st := Over(was, x, specp);
    PermittedOver(seg, was, front, x, specp, flags);
    ItemRun(seg, was, x, specp, flags);
    HoldsOver(seg, was, front, x, specp);
  }

  // From a place reached over items, an error comes from an offence further on.
  lemma {:induction false} Offender(e: Error, seg: seq<string>, st: Fill, items: seq<Item>, specp: bool, flags: Flags)
      returns (more: seq<Item>, tail: seq<string>)
    requires Balanced(seg) && st.i <= |seg| && Depth(seg, st.i) == 0 && Stands(seg, 0, Flat(items))
    requires AllFormed(items) && Permitted(items, specp, flags) && Holds(seg, st, items, specp)
    requires FillFrom(seg, st, specp, flags).err == Some(e)
    ensures Offence(e, more, tail, seg, specp, flags)
    decreases |seg| - st.i
  {
    var r := FillStep(seg, st, specp, flags);
    OneStep(seg, st, r, specp, flags);
    if r.err.Some? {
      FirstErrorCounts(seg, r, specp, flags);
      StepRaises(e, seg, st, items, specp, flags);
      more, tail := items, seg[st.i..];
      WordsInFront(seg, Flat(items));
    } else {
      var x := FirstItem(seg, st.i, st, specp, flags);
      NotRefused(seg, st, x, specp, flags);
      PermittedOver(seg, st, items, x, specp, flags);
      var next := OneOver(seg, st, items, x, specp, flags);
      PlaceBehind(seg, st.i, next.i, x);
      FlatOver(seg, items, x);
      FormedMore(items, x);
      more, tail := Offender(e, seg, next, items + [x], specp, flags);
    }
  }

  lemma PlaceBehind(seg: seq<string>, p: nat, q: nat, x: Item)
    requires ItemAt(seg, p, x) && q == p + |Text(x)|
    ensures p < q <= |seg| && Depth(seg, q) == 0 && Stands(seg, p, Text(x)) && Formed(x)
  {
  }

  lemma FlatOver(seg: seq<string>, items: seq<Item>, x: Item)
    requires Stands(seg, 0, Flat(items)) && Stands(seg, |Flat(items)|, Text(x))
    ensures Stands(seg, 0, Flat(items + [x]))
  {
    FlatSnoc(items, x);
    WordsOver(seg, Flat(items), Text(x));
  }

  lemma WordsOver(seg: seq<string>, front: seq<string>, ws: seq<string>)
    requires Stands(seg, 0, front) && Stands(seg, |front|, ws)
    ensures Stands(seg, 0, front + ws)
  {
  }

  lemma WordsInFront(seg: seq<string>, front: seq<string>)
    requires Stands(seg, 0, front)
    ensures seg == front + seg[|front|..]
  {
  }

  lemma FormedMore(items: seq<Item>, x: Item)
    requires AllFormed(items) && Formed(x)
    ensures AllFormed(items + [x])
  {
  }

  // An item whose first word raises no error can be gathered.
  lemma NotRefused(seg: seq<string>, st: Fill, x: Item, specp: bool, flags: Flags)
    requires Formed(x) && Stands(seg, st.i, Text(x)) && st.l == 0 && st.err.None? && st.i < |seg|
    requires FillStep(seg, st, specp, flags).err.None?
    ensures Goes(st, x, specp, flags)
  {
    match x
    case Arg(_) =>
    case From(_, _) => FromStep(seg, st, x, specp, flags);
    case To(_, _, _, _) => ToStep(seg, st, x, specp, flags);
    case Group(_, _, _) => GroupStands(seg, st.i, x);
  }

  // Gathering fails with an error exactly when the segment is items that are permitted and,
  // behind them, something that may not stand there for that reason.
  lemma GatherFails(e: Error, seg: seq<string>, specp: bool, flags: Flags)
    requires Balanced(seg)
    ensures FillFrom(seg, FillStart, specp, flags).err == Some(e) <==>
            exists items, tail :: Offence(e, items, tail, seg, specp, flags)
  {
    if FillFrom(seg, FillStart, specp, flags).err == Some(e) {
      StartHolds(seg, specp);
      var items, tail := Offender(e, seg, FillStart, [], specp, flags);
    }
    if items, tail :| Offence(e, items, tail, seg, specp, flags) {
      OffenceFails(e, items, tail, seg, specp, flags);
    }
  }

  lemma OffenceFails(e: Error, items: seq<Item>, tail: seq<string>, seg: seq<string>, specp: bool, flags: Flags)
    requires Offence(e, items, tail, seg, specp, flags)
    ensures FillFrom(seg, FillStart, specp, flags).err == Some(e)
  {
    var st := Reached(items, tail, seg, specp, flags);
    StepRaises(e, seg, st, items, specp, flags);
    var r := FillStep(seg, st, specp, flags);
    OneStep(seg, st, r, specp, flags);
    FirstErrorCounts(seg, r, specp, flags);
  }
}

// What a word with braces means: the words obtained by choosing one alternative
// of every brace, leftmost choice varying slowest.
module BraceMeaning {
  import opened Shared
  import opened BraceExpansion

  // A word with its braces and [...] classes made explicit.
  datatype Pat =
    | Nil
    | Lit(c: char, rest: Pat)
    | Class(text: string, rest: Pat)
    | Alt(alts: Alts, rest: Pat)

  datatype Alts = Last(p: Pat) | More(p: Pat, others: Alts)

  function Text(p: Pat): string {
    match p
    case Nil => ""
    case Lit(c, r) => [c] + Text(r)
    case Class(t, r) => "[" + t + "]" + Text(r)
    case Alt(a, r) => "{" + AltsText(a) + "}" + Text(r)
  }

  function AltsText(a: Alts): string {
    match a
    case Last(p) => Text(p)
    case More(p, r) => Text(p) + "," + AltsText(r)
  }

  // Characters that are themselves: inside a brace no comma, closing brace or [.
  predicate WellFormed(p: Pat, inside: bool) {
    match p
    case Nil => true
    case Lit(c, r) => c != '{' && (inside ==> c !in "},[") && WellFormed(r, inside)
    case Class(t, r) => ']' !in t && '{' !in t && WellFormed(r, inside)
    case Alt(a, r) => WellFormedAlts(a) && WellFormed(r, inside)
  }

  predicate WellFormedAlts(a: Alts) {
    match a
    case Last(p) => WellFormed(p, true)
    case More(p, r) => WellFormed(p, true) && WellFormedAlts(r)
  }

  function Prefix(s: string, ws: seq<string>): seq<string> {
    if ws == [] then [] else [s + ws[0]] + Prefix(s, ws[1..])
  }

  // Every word of xs followed by every word of ys.
  function Cross(xs: seq<string>, ys: seq<string>): seq<string> {
    if xs == [] then [] else Prefix(xs[0], ys) + Cross(xs[1..], ys)
  }

  function Meaning(p: Pat): seq<string> {
    match p
    case Nil => [""]
    case Lit(c, r) => Prefix([c], Meaning(r))
    case Class(t, r) => Prefix("[" + t + "]", Meaning(r))
    case Alt(a, r) => Cross(AltsMeaning(a), Meaning(r))
  }

  function AltsMeaning(a: Alts): seq<string> {
    match a
    case Last(p) => Meaning(p)
    case More(p, r) => Meaning(p) + AltsMeaning(r)
  }

  // ----- algebra of Prefix and Cross -----

  lemma {:induction false} PrefixConcat(s: string, xs: seq<string>, ys: seq<string>)
    ensures Prefix(s, xs + ys) == Prefix(s, xs) + Prefix(s, ys)
  {
    if xs == [] {
      assert xs + ys == ys;
    } else {
      assert (xs + ys)[1..] == xs[1..] + ys;
      PrefixConcat(s, xs[1..], ys);
    }
  }

  lemma {:induction false} PrefixTwice(s: string, t: string, xs: seq<string>)
    ensures Prefix(s, Prefix(t, xs)) == Prefix(s + t, xs)
  {
    if xs != [] {
      PrefixTwice(s, t, xs[1..]);
      assert s + (t + xs[0]) == s + t + xs[0];
      assert Prefix(t, xs)[1..] == Prefix(t, xs[1..]);
    }
  }

  lemma {:induction false} PrefixNothing(xs: seq<string>)
    ensures Prefix("", xs) == xs
  {
    if xs != [] {
      PrefixNothing(xs[1..]);
      assert "" + xs[0] == xs[0];
    }
  }

  lemma {:induction false} CrossSum(xs: seq<string>, ys: seq<string>, zs: seq<string>)
    ensures Cross(xs + ys, zs) == Cross(xs, zs) + Cross(ys, zs)
  {
    if xs == [] {
      assert xs + ys == ys;
    } else {
      assert (xs + ys)[1..] == xs[1..] + ys;
      CrossSum(xs[1..], ys, zs);
    }
  }

  lemma {:induction false} CrossPrefix(s: string, xs: seq<string>, ys: seq<string>)
    ensures Cross(Prefix(s, xs), ys) == Prefix(s, Cross(xs, ys))
  {
    if xs != [] {
      CrossPrefix(s, xs[1..], ys);
      PrefixConcat(s, Prefix(xs[0], ys), Cross(xs[1..], ys));
      PrefixTwice(s, xs[0], ys);
      assert Prefix(s, xs)[1..] == Prefix(s, xs[1..]);
    }
  }

  lemma {:induction false} CrossAssoc(xs: seq<string>, ys: seq<string>, zs: seq<string>)
    ensures Cross(Cross(xs, ys), zs) == Cross(xs, Cross(ys, zs))
  {
    if xs != [] {
      CrossSum(Prefix(xs[0], ys), Cross(xs[1..], ys), zs);
      CrossPrefix(xs[0], ys, zs);
      CrossAssoc(xs[1..], ys, zs);
    }
  }

  lemma PrefixSingle(s: string, w: string)
    ensures Prefix(s, [w]) == [s + w]
  {
    assert [w][1..] == [];
  }

  lemma CrossSingle(x: string, ys: seq<string>)
    ensures Cross([x], ys) == Prefix(x, ys)
  {
    assert [x][1..] == [];
  }

  // ----- concatenation of patterns -----

  function Append(p: Pat, q: Pat): Pat {
    match p
    case Nil => q
    case Lit(c, r) => Lit(c, Append(r, q))
    case Class(t, r) => Class(t, Append(r, q))
    case Alt(a, r) => Alt(a, Append(r, q))
  }

  lemma Associates(a: string, b: string, c: string)
    ensures a + (b + c) == a + b + c
  {
  }

  lemma {:induction false} AppendText(p: Pat, q: Pat)
    ensures Text(Append(p, q)) == Text(p) + Text(q)
  {
    match p
    case Nil =>
    case Lit(c, r) =>
      AppendText(r, q);
      Associates([c], Text(r), Text(q));
    case Class(t, r) =>
      AppendText(r, q);
      Associates("[" + t + "]", Text(r), Text(q));
    case Alt(a, r) =>
      AppendText(r, q);
      Associates("{" + AltsText(a) + "}", Text(r), Text(q));
  }

  // Choices made on the left vary slower than choices made on the right.
  lemma {:induction false} MeaningConcat(p: Pat, q: Pat)
    ensures Meaning(Append(p, q)) == Cross(Meaning(p), Meaning(q))
  {
    match p
    case Nil =>
      PrefixNothing(Meaning(q));
      assert [""][1..] == [];
    case Lit(c, r) => MeaningConcat(r, q); CrossPrefix([c], Meaning(r), Meaning(q));
    case Class(t, r) => MeaningConcat(r, q); CrossPrefix("[" + t + "]", Meaning(r), Meaning(q));
    case Alt(a, r) => MeaningConcat(r, q); CrossAssoc(AltsMeaning(a), Meaning(r), Meaning(q));
  }

  lemma {:induction false} AppendWellFormed(p: Pat, q: Pat, inside: bool)
    requires WellFormed(p, inside) && WellFormed(q, false)
    ensures WellFormed(Append(p, q), false)
  {
    match p
    case Nil =>
    case Lit(c, r) => AppendWellFormed(r, q, inside);
    case Class(t, r) => AppendWellFormed(r, q, inside);
    case Alt(a, r) => AppendWellFormed(r, q, inside);
  }

  // ----- what the brace scanner sees -----

  function Run(st: Scan, s: string): Scan {
    if s == "" then st else Step(Run(st, s[..|s| - 1]), s[|s| - 1])
  }

  lemma {:induction false} RunConcat(st: Scan, a: string, b: string)
    ensures Run(st, a + b) == Run(Run(st, a), b)
  {
    if b == "" {
      assert a + b == a;
    } else {
      assert (a + b)[..|a + b| - 1] == a + b[..|b| - 1];
      RunConcat(st, a, b[..|b| - 1]);
    }
  }

  lemma {:induction false} RunIsStateAt(t: string, k: nat)
    requires k <= |t|
    ensures StateAt(t, k) == Run(Start, t[..k])
  {
    if k > 0 {
      RunIsStateAt(t, k - 1);
      assert t[..k][..k - 1] == t[..k - 1];
    }
  }

  // Scanning s at depth d comes back to depth d, never dips below it and passes no
  // closing brace at it; passing commas at depth d is allowed or not.
  ghost predicate Quiet(s: string, d: nat, commas: bool) {
    && Run(Scan(d, false), s) == Scan(d, false)
    && forall k :: 0 <= k < |s| ==>
         var st := Run(Scan(d, false), s[..k]);
         st.depth >= d && (st == Scan(d, false) ==> s[k] != '}' && (s[k] == ',' ==> commas))
  }

  lemma QuietConcat(a: string, b: string, d: nat, commas: bool)
    requires Quiet(a, d, commas) && Quiet(b, d, commas)
    ensures Quiet(a + b, d, commas)
  {
    RunConcat(Scan(d, false), a, b);
    forall k | 0 <= k < |a + b|
      ensures var st := Run(Scan(d, false), (a + b)[..k]);
              st.depth >= d && (st == Scan(d, false) ==> (a + b)[k] != '}' && ((a + b)[k] == ',' ==> commas))
    {
      if k < |a| {
        assert (a + b)[..k] == a[..k];
      } else {
        assert (a + b)[..k] == a + b[..k - |a|];
        RunConcat(Scan(d, false), a, b[..k - |a|]);
      }
    }
  }

  lemma QuietChar(c: char, d: nat, commas: bool)
    requires c !in "{}["
    requires c == ',' ==> commas
    ensures Quiet([c], d, commas)
  {
    assert [c][..0] == "";
  }

  lemma {:induction false} RunClass(t: string, d: nat)
    requires ']' !in t
    ensures Run(Scan(d, false), "[" + t) == Scan(d, true)
  {
    var s := "[" + t;
    if t == "" {
      assert s[..0] == "";
    } else {
      assert s[..|s| - 1] == "[" + t[..|t| - 1];
      RunClass(t[..|t| - 1], d);
    }
  }

  lemma QuietClass(t: string, d: nat, commas: bool)
    requires ']' !in t
    ensures Quiet("[" + t + "]", d, commas)
  {
    var s := "[" + t + "]";
    RunClass(t, d);
    assert s[..|s| - 1] == "[" + t;
    forall k | 0 < k < |s| ensures Run(Scan(d, false), s[..k]) == Scan(d, true) {
      assert s[..k] == "[" + t[..k - 1];
      RunClass(t[..k - 1], d);
    }
  }

  lemma QuietBrace(s: string, d: nat, commas: bool)
    requires Quiet(s, d + 1, true)
    ensures Quiet("{" + s + "}", d, commas)
  {
    var w := "{" + s + "}";
    assert "{"[..0] == "";
    assert Run(Scan(d, false), "{") == Scan(d + 1, false);
    forall k | 0 < k < |w|
      ensures Run(Scan(d, false), w[..k]) == Run(Scan(d + 1, false), s[..k - 1])
    {
      assert w[..k] == "{" + s[..k - 1];
      RunConcat(Scan(d, false), "{", s[..k - 1]);
    }
    assert w[..|w| - 1] == "{" + s && s[..|w| - 2] == s;
  }

  lemma {:induction false} TextQuiet(p: Pat, d: nat)
    requires WellFormed(p, true)
    ensures Quiet(Text(p), d, false) && Quiet(Text(p), d, true)
  {
    match p
    case Nil =>
    case Lit(c, r) =>
      TextQuiet(r, d);
      QuietChar(c, d, false); QuietConcat([c], Text(r), d, false);
    case Class(t, r) =>
      TextQuiet(r, d);
      QuietClass(t, d, false); QuietConcat("[" + t + "]", Text(r), d, false);
    case Alt(a, r) =>
      TextQuiet(r, d);
      AltsTextQuiet(a, d + 1);
      QuietBrace(AltsText(a), d, false); QuietConcat("{" + AltsText(a) + "}", Text(r), d, false);
  }

  lemma {:induction false} AltsTextQuiet(a: Alts, d: nat)
    requires WellFormedAlts(a)
    ensures Quiet(AltsText(a), d, true)
  {
    match a
    case Last(p) => TextQuiet(p, d);
    case More(p, r) =>
      TextQuiet(p, d);
      AltsTextQuiet(r, d);
      QuietChar(',', d, true);
      QuietConcat(Text(p), ",", d, true);
      QuietConcat(Text(p) + ",", AltsText(r), d, true);
  }

  function AltTexts(a: Alts): seq<string> {
    match a
    case Last(p) => [Text(p)]
    case More(p, r) => [Text(p)] + AltTexts(r)
  }

  // Scanning t from lo on is scanning a fresh text, when lo is outside everything.
  lemma StateFrom(t: string, lo: nat, s: string, j: nat)
    requires lo + |s| <= |t| && t[lo..lo + |s|] == s && j <= |s|
    requires StateAt(t, lo) == Start
    ensures StateAt(t, lo + j) == Run(Start, s[..j])
  {
    RunIsStateAt(t, lo + j);
    RunIsStateAt(t, lo);
    assert t[..lo + j] == t[..lo] + s[..j];
    RunConcat(Start, t[..lo], s[..j]);
  }

  lemma QuietNotTopLevel(t: string, lo: nat, s: string, commas: bool)
    requires lo + |s| <= |t| && t[lo..lo + |s|] == s
    requires StateAt(t, lo) == Start && Quiet(s, 0, commas)
    ensures StateAt(t, lo + |s|) == Start
    ensures forall m :: lo <= m < lo + |s| ==> !TopLevel(t, m, '}') && (TopLevel(t, m, ',') ==> commas)
  {
    StateFrom(t, lo, s, |s|);
    assert s[..|s|] == s;
    forall m | lo <= m < lo + |s|
      ensures !TopLevel(t, m, '}') && (TopLevel(t, m, ',') ==> commas)
    {
      StateFrom(t, lo, s, m - lo);
      assert t[m] == s[m - lo];
    }
  }

  // A pattern is passed over without a comma or closing brace at the top level.
  lemma PatPasses(t: string, lo: nat, p: Pat)
    requires WellFormed(p, true) && lo + |Text(p)| <= |t| && t[lo..lo + |Text(p)|] == Text(p) && StateAt(t, lo) == Start
    ensures StateAt(t, lo + |Text(p)|) == Start
    ensures forall m :: lo <= m < lo + |Text(p)| ==> !TopLevel(t, m, ',')
  {
    TextQuiet(p, 0);
    QuietNotTopLevel(t, lo, Text(p), false);
  }

  lemma {:induction false} PiecesAreAlternatives(t: string, lo: nat, a: Alts)
    requires WellFormedAlts(a)
    requires lo + |AltsText(a)| <= |t| && t[lo..lo + |AltsText(a)|] == AltsText(a)
    requires StateAt(t, lo) == Start
    ensures Pieces(t, lo, lo, lo + |AltsText(a)|) == AltTexts(a)
    decreases a, 0
  {
    var pe := lo + |AltsText(a)|;
    match a {
      case Last(p) =>
        PatPasses(t, lo, p);
        PiecesSkip(t, lo, lo, pe, pe);
      case More(p, r) =>
        var k := lo + |Text(p)|;
        ThreeParts(t[lo..pe], t, lo, Text(p), AltsText(r));
        PatPasses(t, lo, p);
        PiecesMore(t, lo, k, pe, p, r);
    }
  }

  lemma {:induction false} PiecesMore(t: string, lo: nat, k: nat, pe: nat, p: Pat, r: Alts)
    requires lo <= k < pe <= |t| && t[lo..k] == Text(p) && t[k] == ',' && StateAt(t, k) == Start
    requires forall m :: lo <= m < k ==> !TopLevel(t, m, ',')
    requires WellFormedAlts(r) && pe == k + 1 + |AltsText(r)| && t[k + 1..pe] == AltsText(r)
    ensures Pieces(t, lo, lo, pe) == [Text(p)] + AltTexts(r)
    decreases r, 1
  {
    PiecesSkip(t, lo, lo, k, pe);
    PiecesAreAlternatives(t, k + 1, r);
  }

  lemma ThreeParts(u: string, t: string, lo: nat, a: string, b: string)
    requires u == a + "," + b && lo + |u| <= |t| && t[lo..lo + |u|] == u
    ensures var k := lo + |a|; t[lo..k] == a && t[k] == ',' && t[k + 1..lo + |u|] == b
  {
    var k := lo + |a|;
    assert t[lo..k] == u[..|a|];
    assert t[k] == u[|a|];
    assert t[k + 1..lo + |u|] == u[|a| + 1..];
  }

  lemma TextAlternatives(pre: string, a: Alts, post: string)
    requires '{' !in pre && WellFormedAlts(a)
    ensures var s := pre + "{" + AltsText(a) + "}" + post;
            '{' in s && Alternatives(s) == Success(Surround(pre, AltTexts(a), post))
  {
    var s := pre + "{" + AltsText(a) + "}" + post;
    var b, n := |pre|, |AltsText(a)|;
    GroupParts(pre, AltsText(a), post);
    FirstIndex(s, '{', b);
    var t := s[b + 1..];
    GroupPieces(t, a);
  }

  lemma GroupParts(pre: string, mid: string, post: string)
    ensures var s := pre + "{" + mid + "}" + post;
            var t := s[|pre| + 1..];
            s[..|pre|] == pre && s[|pre|] == '{'
            && t[0..|mid|] == mid && t[|mid|] == '}' && t[|mid| + 1..] == post
  {
  }

  lemma GroupPieces(t: string, a: Alts)
    requires WellFormedAlts(a) && |AltsText(a)| < |t| && t[0..|AltsText(a)|] == AltsText(a) && t[|AltsText(a)|] == '}'
    ensures FindClose(t, 0) == Some(|AltsText(a)|) && Pieces(t, 0, 0, |AltsText(a)|) == AltTexts(a)
  {
    var n := |AltsText(a)|;
    AltsTextQuiet(a, 0);
    QuietNotTopLevel(t, 0, AltsText(a), true);
    FindCloseSkip(t, 0, n);
    PiecesAreAlternatives(t, 0, a);
  }

  // ----- the theorem -----

  function Single(w: string): string {
    if w == "{}" then "" else w
  }

  // A brace group {} left alone counts as the empty word it stands for elsewhere.
  function Settle(ws: seq<string>): (r: seq<string>)
    ensures |r| == |ws|
  {
    seq(|ws|, i requires 0 <= i < |ws| => Single(ws[i]))
  }

  lemma {:induction false} FirstBrace(p: Pat) returns (pre: Pat, a: Alts, r: Pat)
    requires WellFormed(p, false) && '{' in Text(p)
    ensures p == Append(pre, Alt(a, r)) && WellFormed(pre, false) && WellFormed(Alt(a, r), false)
    ensures '{' !in Text(pre) && Meaning(pre) == [Text(pre)]
  {
    match p
    case Lit(c, q) =>
      var pre', a', r' := FirstBrace(q);
      pre, a, r := Lit(c, pre'), a', r';
      PrefixSingle([c], Text(pre'));
    case Class(t, q) =>
      assert '{' !in "[" + t + "]";
      var pre', a', r' := FirstBrace(q);
      pre, a, r := Class(t, pre'), a', r';
      PrefixSingle("[" + t + "]", Text(pre'));
    case Alt(a', q) =>
      pre, a, r := Nil, a', q;
  }

  lemma AltHasBrace(p: Pat)
    requires p.Alt?
    ensures '{' in Text(p)
  {
    assert Text(p)[0] == '{';
  }

  lemma {:induction false} NoBraceMeaning(p: Pat)
    requires '{' !in Text(p)
    ensures Meaning(p) == [Text(p)]
  {
    match p
    case Nil =>
    case Lit(c, r) => NoBraceMeaning(r); PrefixSingle([c], Text(r));
    case Class(t, r) => NoBraceMeaning(r); PrefixSingle("[" + t + "]", Text(r));
    case Alt(a, r) => AltHasBrace(p); assert false;
  }

  lemma ExemptMeaning(p: Pat)
    requires WellFormed(p, false) && Exempt(Text(p))
    ensures Text(p) == "{}" && Meaning(p) == [""]
  {
    var pre, a, r := FirstBrace(p);
    AppendText(pre, Alt(a, r));
    assert Text(p)[|Text(pre)|] == '{';
    assert Text(pre) == "" && |AltsText(a)| == 0 && Text(r) == "";
    assert a.Last? && a.p == Nil && r == Nil && pre == Nil by { EmptyText(a.p); EmptyText(r); EmptyText(pre); }
    assert Cross([""], [""]) == [""] by { CrossSingle("", [""]); PrefixNothing([""]); }
  }

  lemma EmptyText(p: Pat)
    requires Text(p) == ""
    ensures p == Nil
  {
  }

  // Expanding a well-formed word succeeds, and gives the words it means, in order;
  // a word that is just {} is kept and stands for the empty word.
  lemma {:induction false} ExpandIsMeaning(p: Pat)
    requires WellFormed(p, false)
    ensures Expand(Text(p)).Success? && Settle(Expand(Text(p)).value) == Meaning(p)
    decreases Opens(Text(p)), 2, Last(Nil)
  {
    if '{' !in Text(p) {
      NoBraceMeaning(p);
    } else if Exempt(Text(p)) {
      ExemptMeaning(p);
    } else {
      var pre, a, r := FirstBrace(p);
      FirstGroup(p, pre, a, r);
      AllAlternatives(pre, a, r, Opens(Text(p)));
      MeaningConcat(pre, Alt(a, r));
    }
  }

  // A word with a group is replaced by the words with its alternatives, which have fewer
  // braces.
  lemma FirstGroup(p: Pat, pre: Pat, a: Alts, r: Pat)
    requires p == Append(pre, Alt(a, r)) && '{' !in Text(pre) && !Exempt(Text(p)) && WellFormedAlts(a)
    ensures var ws := Surround(Text(pre), AltTexts(a), Text(r));
            Expand(Text(p)) == ExpandAll(ws) && forall w :: w in ws ==> Opens(w) < Opens(Text(p))
  {
    AppendText(pre, Alt(a, r));
    TextAlternatives(Text(pre), a, Text(r));
    GroupText(Text(pre), AltsText(a), Text(r));
    ExpandsTo(Text(p), Surround(Text(pre), AltTexts(a), Text(r)));
  }

  lemma GroupText(pre: string, mid: string, post: string)
    ensures pre + ("{" + mid + "}" + post) == pre + "{" + mid + "}" + post
  {
  }

  lemma ExpandsTo(w: string, ws: seq<string>)
    requires '{' in w && !Exempt(w) && Alternatives(w) == Success(ws)
    ensures Expand(w) == ExpandAll(ws) && forall x :: x in ws ==> Opens(x) < Opens(w)
  {
    AlternativesShrink(w);
  }

  lemma ChoiceIsMeaning(pre: Pat, p: Pat, r: Pat, n: nat)
    requires WellFormed(pre, false) && WellFormed(p, true) && WellFormed(r, false)
    requires Opens(Text(pre) + Text(p) + Text(r)) < n
    ensures var e := Expand(Text(pre) + Text(p) + Text(r));
            e.Success? && Settle(e.value) == Cross(Meaning(pre), Cross(Meaning(p), Meaning(r)))
    decreases n, 0, Last(Nil)
  {
    var q := Choice(pre, p, r);
    ExpandIsMeaning(q);
  }

  // The pattern with one alternative chosen.
  lemma Choice(pre: Pat, p: Pat, r: Pat) returns (q: Pat)
    requires WellFormed(pre, false) && WellFormed(p, true) && WellFormed(r, false)
    ensures WellFormed(q, false) && Text(q) == Text(pre) + Text(p) + Text(r)
    ensures Meaning(q) == Cross(Meaning(pre), Cross(Meaning(p), Meaning(r)))
  {
    q := Append(pre, Append(p, r));
    ChoiceText(pre, p, r);
    AppendWellFormed(p, r, true);
    AppendWellFormed(pre, Append(p, r), false);
    ChoiceMeaning(pre, p, r);
  }

  lemma ChoiceText(pre: Pat, p: Pat, r: Pat)
    ensures Text(Append(pre, Append(p, r))) == Text(pre) + Text(p) + Text(r)
  {
    AppendText(pre, Append(p, r));
    AppendText(p, r);
    Associates(Text(pre), Text(p), Text(r));
  }

  lemma ChoiceMeaning(pre: Pat, p: Pat, r: Pat)
    ensures Meaning(Append(pre, Append(p, r))) == Cross(Meaning(pre), Cross(Meaning(p), Meaning(r)))
  {
    MeaningConcat(pre, Append(p, r));
    MeaningConcat(p, r);
  }

  lemma ExpandCons(w: string, ws: seq<string>)
    ensures ExpandAll([w] + ws) == Both(Expand(w), ExpandAll(ws))
  {
    assert ([w] + ws)[1..] == ws;
  }

  lemma ExpandOnly(w: string)
    requires Expand(w).Success?
    ensures ExpandAll([w]) == Expand(w)
  {
    ExpandCons(w, []);
    assert [w] + [] == [w] && Expand(w).value + [] == Expand(w).value;
  }

  lemma SettleConcat(x: seq<string>, y: seq<string>)
    ensures Settle(x + y) == Settle(x) + Settle(y)
  {
  }

  lemma {:induction false} AllAlternatives(pre: Pat, a: Alts, r: Pat, n: nat)
    requires WellFormed(pre, false) && WellFormedAlts(a) && WellFormed(r, false)
    requires Meaning(pre) == [Text(pre)]
    requires forall w :: w in Surround(Text(pre), AltTexts(a), Text(r)) ==> Opens(w) < n
    ensures var e := ExpandAll(Surround(Text(pre), AltTexts(a), Text(r)));
            e.Success? && Settle(e.value) == Cross(Meaning(pre), Cross(AltsMeaning(a), Meaning(r)))
    decreases n, 1, a
  {
    var w := Text(pre) + Text(a.p) + Text(r);
    match a {
      case Last(p) =>
        assert Surround(Text(pre), AltTexts(a), Text(r)) == [w];
        assert w in [w];
        ChoiceIsMeaning(pre, p, r, n);
        ExpandOnly(w);
      case More(p, others) =>
        var rest := Surround(Text(pre), AltTexts(others), Text(r));
        assert Surround(Text(pre), AltTexts(a), Text(r)) == [w] + rest;
        assert w in [w] + rest && forall x :: x in rest ==> x in [w] + rest;
        ChoiceIsMeaning(pre, p, r, n);
        AllAlternatives(pre, others, r, n);
        JoinChoices(w, rest, Text(pre), Meaning(p), AltsMeaning(others), Meaning(r));
    }
  }

  lemma JoinChoices(w: string, rest: seq<string>, x: string, ps: seq<string>, qs: seq<string>, rs: seq<string>)
    requires Expand(w).Success? && Settle(Expand(w).value) == Cross([x], Cross(ps, rs))
    requires ExpandAll(rest).Success? && Settle(ExpandAll(rest).value) == Cross([x], Cross(qs, rs))
    ensures var e := ExpandAll([w] + rest);
            e.Success? && Settle(e.value) == Cross([x], Cross(ps + qs, rs))
  {
    ExpandCons(w, rest);
    SettleConcat(Expand(w).value, ExpandAll(rest).value);
    SumOfChoices(x, ps, qs, rs);
  }

  lemma SumOfChoices(x: string, ps: seq<string>, qs: seq<string>, rs: seq<string>)
    ensures Cross([x], Cross(ps, rs)) + Cross([x], Cross(qs, rs)) == Cross([x], Cross(ps + qs, rs))
  {
    CrossSum(ps, qs, rs);
    PrefixConcat(x, Cross(ps, rs), Cross(qs, rs));
    CrossSingle(x, Cross(ps, rs));
    CrossSingle(x, Cross(qs, rs));
    CrossSingle(x, Cross(ps + qs, rs));
  }

  // ----- brackets that are missing -----

  lemma Opened(pre: string, t: string)
    requires '{' !in pre
    ensures var w := pre + "{" + t; '{' in w && IndexOf(w, '{') == |pre| && w[|pre| + 1..] == t
  {
    var w := pre + "{" + t;
    assert w[|pre|] == '{' && w[..|pre|] == pre;
    FirstIndex(w, '{', |pre|);
  }

  lemma NotExempt(pre: string, t: string)
    requires '{' !in pre && (pre == "" ==> t != "") && (t != "" ==> t[0] != '}')
    ensures !Exempt(pre + "{" + t)
  {
    var w := pre + "{" + t;
    assert w[|pre|] == '{' && (t != "" ==> w[|pre| + 1] == t[0]);
  }

  // The words { and {} stand for themselves.
  lemma BracesAlone()
    ensures Expand("{") == Success(["{"]) && Expand("{}") == Success(["{}"])
  {
  }

  // A group that is not closed lacks its brace.
  lemma MissingBrace(pre: string, a: Alts)
    requires '{' !in pre && WellFormedAlts(a) && (pre == "" ==> AltsText(a) != "")
    ensures Expand(pre + "{" + AltsText(a)) == Failure('}')
  {
    var t := AltsText(a);
    Opened(pre, t);
    AltsTextQuiet(a, 0);
    assert t[0..|t|] == t;
    QuietNotTopLevel(t, 0, t, true);
    FindCloseSkip(t, 0, |t|);
    assert t != "" ==> !TopLevel(t, 0, '}');
    NotExempt(pre, t);
  }

  lemma {:induction false} StaysInClass(t: string, n: nat, k: nat)
    requires n < k <= |t| && t[n] == '[' && StateAt(t, n) == Start && ']' !in t[n..]
    ensures StateAt(t, k) == Scan(0, true)
    decreases k
  {
    if k > n + 1 {
      StaysInClass(t, n, k - 1);
      assert t[k - 1] == t[n..][k - 1 - n];
    }
  }

  // A class that is not closed, behind the opening brace, lacks its bracket.
  lemma MissingBracket(pre: string, a: Alts, rest: string)
    requires '{' !in pre && WellFormedAlts(a) && ']' !in rest
    ensures Expand(pre + "{" + (AltsText(a) + "[" + rest)) == Failure(']')
  {
    var s := AltsText(a);
    var t := s + "[" + rest;
    AltsTextQuiet(a, 0);
    QuietThenOpen(s, rest);
    NeverClosed(t, |s|);
    BracketLacks(pre, t, |s|);
  }

  lemma QuietThenOpen(s: string, rest: string)
    requires Quiet(s, 0, true) && ']' !in rest
    ensures var t := s + "[" + rest;
            t[|s|] == '[' && StateAt(t, |s|) == Start && ']' !in t[|s|..]
            && forall m :: 0 <= m < |s| ==> !TopLevel(t, m, '}')
  {
    var t := s + "[" + rest;
    BehindQuiet(s, rest);
    QuietNotTopLevel(t, 0, s, true);
  }

  lemma BehindQuiet(s: string, rest: string)
    requires ']' !in rest
    ensures var t := s + "[" + rest; t[0..|s|] == s && t[|s|] == '[' && ']' !in t[|s|..]
  {
    assert (s + "[" + rest)[|s|..] == "[" + rest;
  }

  lemma BracketLacks(pre: string, t: string, n: nat)
    requires '{' !in pre && n < |t| && t[n] == '['
    requires FindClose(t, 0) == None && StateAt(t, |t|).inClass
    ensures Expand(pre + "{" + t) == Failure(']')
  {
    Opened(pre, t);
    assert (pre + "{" + t)[|pre| + 1 + n] == '[';
  }

  lemma NeverClosed(t: string, n: nat)
    requires n < |t| && t[n] == '[' && StateAt(t, n) == Start && ']' !in t[n..]
    requires forall m :: 0 <= m < n ==> !TopLevel(t, m, '}')
    ensures FindClose(t, 0) == None && StateAt(t, |t|).inClass
  {
    forall k: nat | n < k <= |t| ensures StateAt(t, k) == Scan(0, true) { StaysInClass(t, n, k); }
    FindCloseSkip(t, 0, |t|);
  }
}

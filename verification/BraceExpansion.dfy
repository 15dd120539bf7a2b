// Brace expansion (bin/csh/glob.c): a{b,c}d becomes abd acd.
module BraceExpansion {
  import opened Shared

  // ----- scanning the text after an opening brace -----

  // How many braces are open, and whether the scan is inside [...].
  datatype Scan = Scan(depth: nat, inClass: bool)

  const Start := Scan(0, false)

  function Step(st: Scan, c: char): Scan {
    if st.inClass then Scan(st.depth, c != ']')
    else if c == '[' then Scan(st.depth, true)
    else if c == '{' then Scan(st.depth + 1, false)
    else if c == '}' && st.depth > 0 then Scan(st.depth - 1, false)
    else st
  }

  // The state of the scan in front of position k.
  function StateAt(t: string, k: nat): Scan
    requires k <= |t|
  {
    if k == 0 then Start else Step(StateAt(t, k - 1), t[k - 1])
  }

  // Position k holds c outside every nested brace and class.
  predicate TopLevel(t: string, k: nat, c: char) {
    k < |t| && t[k] == c && StateAt(t, k) == Start
  }

  // The first closing brace at or after position k that matches the opening one.
  function FindClose(t: string, k: nat): (r: Option<nat>)
    requires k <= |t|
    decreases |t| - k
    ensures r.Some? ==> k <= r.value && TopLevel(t, r.value, '}')
    ensures forall j :: k <= j < (if r.Some? then r.value else |t|) ==> !TopLevel(t, j, '}')
  {
    if k == |t| then None
    else if TopLevel(t, k, '}') then Some(k)
    else FindClose(t, k + 1)
  }

  // The comma-separated pieces of t[..pe] from lo on, no comma lying in t[lo..k].
  function Pieces(t: string, lo: nat, k: nat, pe: nat): (r: seq<string>)
    requires lo <= k <= pe <= |t|
    decreases pe - k
    ensures |r| > 0
  {
    if k == pe then [t[lo..pe]]
    else if TopLevel(t, k, ',') then [t[lo..k]] + Pieces(t, k + 1, k + 1, pe)
    else Pieces(t, lo, k + 1, pe)
  }

  function IndexOf(s: string, c: char): (b: nat)
    requires c in s
    ensures b < |s| && s[b] == c && c !in s[..b]
  {
    if s[0] == c then 0 else
      var b := IndexOf(s[1..], c);
      assert s[..b + 1] == [s[0]] + s[1..][..b];
      b + 1
  }

  // Put each piece between the text before the brace and the text after it.
  function Surround(pre: string, pieces: seq<string>, post: string): (r: seq<string>)
    ensures |r| == |pieces|
    ensures forall i :: 0 <= i < |r| ==> r[i] == pre + pieces[i] + post
  {
    seq(|pieces|, i requires 0 <= i < |pieces| => pre + pieces[i] + post)
  }

  // The brace that closes the text t, or the missing bracket.
  function Closing(t: string): (r: Result<nat, char>)
    ensures r.Success? ==> TopLevel(t, r.value, '}') && forall k :: 0 <= k < r.value ==> !TopLevel(t, k, '}')
  {
    match FindClose(t, 0)
    case None => Failure(if StateAt(t, |t|).inClass then ']' else '}')
    case Some(pe) => Success(pe)
  }

  // The words that replace s, whose first brace is expanded, or the missing bracket.
  function Alternatives(s: string): Result<seq<string>, char>
    requires '{' in s
  {
    var b := IndexOf(s, '{');
    var t := s[b + 1..];
    match Closing(t)
    case Failure(c) => Failure(c)
    case Success(pe) => Success(Surround(s[..b], Pieces(t, 0, 0, pe), t[pe + 1..]))
  }

  // ----- the number of opening braces falls -----

  function Opens(s: string): nat {
    if s == "" then 0 else (if s[0] == '{' then 1 else 0) + Opens(s[1..])
  }

  lemma {:induction false} OpensConcat(a: string, b: string)
    ensures Opens(a + b) == Opens(a) + Opens(b)
  {
    if a == "" {
      assert a + b == b;
    } else {
      assert a + b == [a[0]] + (a[1..] + b);
      OpensConcat(a[1..], b);
    }
  }

  lemma OpensNone(s: string)
    ensures Opens(s) == 0 <==> '{' !in s
  {
    if s != "" { OpensNone(s[1..]); }
  }

  lemma OpensSlice(s: string, lo: nat, hi: nat)
    requires lo <= hi <= |s|
    ensures Opens(s) == Opens(s[..lo]) + Opens(s[lo..hi]) + Opens(s[hi..])
  {
    assert s == s[..lo] + (s[lo..hi] + s[hi..]);
    OpensThree(s[..lo], s[lo..hi], s[hi..]);
  }

  lemma OpensThree(a: string, b: string, c: string)
    ensures Opens(a + (b + c)) == Opens(a) + Opens(b) + Opens(c)
  {
    OpensConcat(a, b + c);
    OpensConcat(b, c);
  }

  lemma {:induction false} PiecesOpens(t: string, lo: nat, k: nat, pe: nat)
    requires lo <= k <= pe <= |t|
    ensures forall p :: p in Pieces(t, lo, k, pe) ==> Opens(p) <= Opens(t[..pe])
    decreases pe - k
  {
    if k == pe {
      OpensSlice(t[..pe], lo, pe);
      assert t[..pe][lo..pe] == t[lo..pe];
    } else if TopLevel(t, k, ',') {
      OpensSlice(t[..pe], lo, k);
      assert t[..pe][lo..k] == t[lo..k];
      PiecesOpens(t, k + 1, k + 1, pe);
    } else {
      PiecesOpens(t, lo, k + 1, pe);
    }
  }

  // Each replacement word has fewer opening braces, and is shorter.
  lemma AlternativesShrink(s: string)
    requires '{' in s && Alternatives(s).Success?
    ensures |Alternatives(s).value| > 0
    ensures forall w :: w in Alternatives(s).value ==> Opens(w) < Opens(s)
  {
    var b := IndexOf(s, '{');
    var t := s[b + 1..];
    var pe := FindClose(t, 0).value;
    OpensSlice(s, b, b + 1);
    assert s[b..b + 1] == "{";
    OpensSlice(t, pe, pe + 1);
    PiecesOpens(t, 0, 0, pe);
    var ps := Pieces(t, 0, 0, pe);
    forall i | 0 <= i < |ps| ensures Opens(s[..b] + ps[i] + t[pe + 1..]) < Opens(s) {
      assert ps[i] in ps;
      OpensConcat(s[..b] + ps[i], t[pe + 1..]);
      OpensConcat(s[..b], ps[i]);
    }
  }

  // ----- the recursive expansion -----

  // The whole words { and {} are left for find(1).
  predicate Exempt(w: string) {
    w == "{" || w == "{}"
  }

  predicate Final(w: string) {
    Exempt(w) || '{' !in w
  }

  function MaxOpens(ws: seq<string>): (n: nat)
    ensures forall w :: w in ws ==> Opens(w) <= n
    ensures ws != [] ==> exists w :: w in ws && Opens(w) == n
  {
    if ws == [] then 0
    else
      var n := MaxOpens(ws[1..]);
      assert ws == [ws[0]] + ws[1..];
      if Opens(ws[0]) > n then assert ws[0] in ws; Opens(ws[0])
      else
        assert forall w :: w in ws[1..] ==> w in ws;
        if ws[1..] == [] then assert ws[0] in ws; Opens(ws[0]) else n
  }

  function Expand(w: string): Result<seq<string>, char>
    decreases Opens(w), 0, 0
  {
    if Final(w) then Success([w])
    else
      match Alternatives(w)
      case Failure(c) => Failure(c)
      case Success(alts) => AlternativesShrink(w); ExpandAll(alts)
  }

  // Left to right; the first missing bracket wins.
  function ExpandAll(ws: seq<string>): Result<seq<string>, char>
    decreases MaxOpens(ws), 1, |ws|
  {
    if ws == [] then Success([])
    else
      assert ws[0] in ws;
      match Expand(ws[0])
      case Failure(c) => Failure(c)
      case Success(a) =>
        assert forall w :: w in ws[1..] ==> w in ws;
        match ExpandAll(ws[1..])
        case Failure(c) => Failure(c)
        case Success(b) => Success(a + b)
  }

  // ----- globbrace: one brace, by two scans of the text -----

  lemma {:induction false} FirstIndex(s: string, c: char, p: nat)
    requires p < |s| && s[p] == c && c !in s[..p]
    ensures c in s && IndexOf(s, c) == p
  {
    if p > 0 {
      assert s[..p][0] == s[0];
      assert s[1..][..p - 1] == s[..p][1..];
      FirstIndex(s[1..], c, p - 1);
    }
  }

  // Ignore everything between []: the next ] at or after k, or the end.
  method SkipClass(t: string, k: nat, ghost depth: nat) returns (j: nat)
    requires k <= |t| && StateAt(t, k) == Scan(depth, true)
    ensures k <= j <= |t| && StateAt(t, j) == Scan(depth, true)
    ensures j < |t| ==> t[j] == ']'
    ensures forall m :: k <= m <= j && m < |t| ==> StateAt(t, m).inClass
  {
    j := k;
    while j < |t| && t[j] != ']'
      invariant k <= j <= |t| && StateAt(t, j) == Scan(depth, true)
      invariant forall m :: k <= m <= j && m < |t| ==> StateAt(t, m).inClass
    {
      j := j + 1;
    }
  }

  lemma FindCloseSkip(t: string, k: nat, j: nat)
    requires k <= j <= |t| && forall m :: k <= m < j ==> !TopLevel(t, m, '}')
    ensures FindClose(t, k) == FindClose(t, j)
    decreases j - k
  {
    if k < j { FindCloseSkip(t, k + 1, j); }
  }

  lemma PiecesSkip(t: string, lo: nat, k: nat, j: nat, pe: nat)
    requires lo <= k <= j <= pe <= |t| && forall m :: k <= m < j ==> !TopLevel(t, m, ',')
    ensures Pieces(t, lo, k, pe) == Pieces(t, lo, j, pe)
    decreases j - k
  {
    if k < j { PiecesSkip(t, lo, k + 1, j, pe); }
  }

  method CheckBalanced(t: string) returns (r: Result<nat, char>)
    ensures r == Closing(t)
  {
    var i, pe := 0, 0;
    while pe < |t|
      invariant 0 <= pe <= |t| && i >= 0
      invariant StateAt(t, pe) == Scan(i, false)
      invariant FindClose(t, 0) == FindClose(t, pe)
    {
      if t[pe] == '[' {
        var j := SkipClass(t, pe + 1, i);
        FindCloseSkip(t, pe, j);
        pe := j;
        if pe == |t| {
          return Failure(']');
        }
      } else if t[pe] == '{' {
        i := i + 1;
      } else if t[pe] == '}' {
        if i == 0 {
          break;
        }
        i := i - 1;
      }
      pe := pe + 1;
    }
    r := if i != 0 || pe == |t| then Failure('}') else Success(pe);
  }

  lemma SurroundAppend(pre: string, pieces: seq<string>, p: string, post: string)
    ensures Surround(pre, pieces + [p], post) == Surround(pre, pieces, post) + [pre + p + post]
  {
  }

  // Split at the commas that belong to the brace closed at pe.
  method SplitAlternatives(lm: string, t: string, pe: nat) returns (vl: seq<string>)
    requires TopLevel(t, pe, '}') && forall k :: 0 <= k < pe ==> !TopLevel(t, k, '}')
    ensures vl == Surround(lm, Pieces(t, 0, 0, pe), t[pe + 1..])
  {
    var post := t[pe + 1..];
    ghost var all, pieces: seq<string> := Pieces(t, 0, 0, pe), [];
    vl := [];
    var i, pl, pm := 0, 0, 0;
    while pm <= pe
      invariant 0 <= pl <= pm <= pe + 1 && i >= 0
      invariant pm <= pe ==> StateAt(t, pm) == Scan(i, false)
      invariant pm <= pe ==> all == pieces + Pieces(t, pl, pm, pe)
      invariant pm > pe ==> all == pieces
      invariant vl == Surround(lm, pieces, post)
    {
      if t[pm] == '[' {
        var j := SkipClass(t, pm + 1, i);
        assert j < pe by { assert !StateAt(t, pe).inClass; }
        PiecesSkip(t, pl, pm, j + 1, pe);
        pm := j;
      } else if t[pm] == '{' {
        i := i + 1;
      } else if t[pm] == '}' && i > 0 {
        i := i - 1;
      } else if (t[pm] == '}' || t[pm] == ',') && i == 0 {
        SurroundAppend(lm, pieces, t[pl..pm], post);
        if pm < pe {
          assert !TopLevel(t, pm, '}') && TopLevel(t, pm, ',');
          assert pieces + Pieces(t, pl, pm, pe) == pieces + [t[pl..pm]] + Pieces(t, pm + 1, pm + 1, pe);
        }
        vl := vl + [lm + t[pl..pm] + post];
        pieces := pieces + [t[pl..pm]];
        pl := pm + 1;
      }
      pm := pm + 1;
    }
  }

  method GlobBrace(s: string) returns (r: Result<seq<string>, char>)
    requires '{' in s
    ensures r == Alternatives(s)
  {
    // copy part up to the brace
    var lm, p := "", 0;
    while s[p] != '{'
      invariant p < |s| && lm == s[..p] && '{' !in s[..p]
      decreases |s| - p
    {
      assert s[..p + 1] == s[..p] + [s[p]] && s[..|s|] == s;
      lm := lm + [s[p]];
      p := p + 1;
    }
    FirstIndex(s, '{', p);
    var t := s[p + 1..];
    var pe := CheckBalanced(t);
    if pe.Failure? {
      return Failure(pe.error);
    }
    var vl := SplitAlternatives(lm, t, pe.value);
    r := Success(vl);
  }

  // ----- expbrace: the worklist on the word vector -----

  // The work that is left for a word: one look, and the work of its replacements.
  ghost function Work(w: string): nat
    decreases Opens(w), 0, 0
  {
    if Final(w) || Alternatives(w).Failure? then 1
    else AlternativesShrink(w); 1 + WorkAll(Alternatives(w).value)
  }

  ghost function WorkAll(ws: seq<string>): nat
    decreases MaxOpens(ws), 1, |ws|
  {
    if ws == [] then 0
    else
      assert ws[0] in ws;
      assert forall w :: w in ws[1..] ==> w in ws;
      Work(ws[0]) + WorkAll(ws[1..])
  }

  lemma {:induction false} WorkConcat(a: seq<string>, b: seq<string>)
    ensures WorkAll(a + b) == WorkAll(a) + WorkAll(b)
  {
    if a == [] {
      assert a + b == b;
    } else {
      assert (a + b)[1..] == a[1..] + b;
      WorkConcat(a[1..], b);
    }
  }

  // Expansion of a vector in two parts.
  function Both(a: Result<seq<string>, char>, b: Result<seq<string>, char>): Result<seq<string>, char> {
    if a.Failure? then a else if b.Failure? then b else Success(a.value + b.value)
  }

  lemma {:induction false} ExpandConcat(a: seq<string>, b: seq<string>)
    ensures ExpandAll(a + b) == Both(ExpandAll(a), ExpandAll(b))
  {
    if a == [] {
      assert a + b == b;
      if ExpandAll(b).Success? { assert [] + ExpandAll(b).value == ExpandAll(b).value; }
    } else {
      assert (a + b)[1..] == a[1..] + b;
      ExpandConcat(a[1..], b);
      if ExpandAll(a + b).Success? {
        var x, y, z := Expand(a[0]).value, ExpandAll(a[1..]).value, ExpandAll(b).value;
        assert x + (y + z) == x + y + z;
      }
    }
  }

  lemma {:induction false} ExpandFinal(ws: seq<string>)
    requires forall w :: w in ws ==> Final(w)
    ensures ExpandAll(ws) == Success(ws)
  {
    if ws != [] {
      assert ws == [ws[0]] + ws[1..];
      ExpandFinal(ws[1..]);
    }
  }

  // Replacing a word by its alternatives does not change what the vector expands to.
  lemma ExpandReplace(done: seq<string>, w: string, rest: seq<string>)
    requires !Final(w)
    ensures Alternatives(w).Success? ==>
              ExpandAll(done + [w] + rest) == ExpandAll(done + Alternatives(w).value + rest)
    ensures Alternatives(w).Failure? && (forall d :: d in done ==> Final(d)) ==>
              ExpandAll(done + [w] + rest) == Failure(Alternatives(w).error)
  {
    ExpandConcat(done + [w], rest);
    ExpandConcat(done, [w]);
    assert ExpandAll([w]) == Expand(w) by {
      assert [w][1..] == [];
      if Expand(w).Success? { assert Expand(w).value + [] == Expand(w).value; }
    }
    if Alternatives(w).Success? {
      var alts := Alternatives(w).value;
      ExpandConcat(done + alts, rest);
      ExpandConcat(done, alts);
    } else if forall d :: d in done ==> Final(d) {
      ExpandFinal(done);
    }
  }

  // A NULL-terminated word vector: ex is the index of its NULL.
  predicate Vector(a: seq<Option<string>>, ex: nat) {
    ex < |a| && a[ex] == None && forall i :: 0 <= i < ex ==> a[i].Some?
  }

  function Words(a: seq<Option<string>>, ex: nat): (ws: seq<string>)
    requires Vector(a, ex)
    ensures |ws| == ex && forall i :: 0 <= i < ex ==> a[i] == Some(ws[i])
  {
    seq(ex, i requires 0 <= i < ex => a[i].value)
  }

  const GLOBSPACE := 100

  // Make room behind the NULL for more words.
  method Grow(nv: array<Option<string>>, ex: nat, len: nat) returns (nv': array<Option<string>>)
    requires ex < nv.Length
    ensures nv' == nv || fresh(nv')
    ensures nv'.Length > ex + len - 1 && nv'.Length >= nv.Length
    ensures forall i :: 0 <= i <= ex ==> nv'[i] == nv[i]
  {
    nv' := nv;
    if ex + len >= nv.Length {
      var l := ex + len - nv.Length;
      var size := nv.Length + if GLOBSPACE > l then GLOBSPACE else l;
      nv' := new Option<string>[size](i reads nv => if 0 <= i < nv.Length then nv[i] else None);
    }
  }

  // Move nv[vl + 1..ex + 1] up by len.
  method MoveUp(nv: array<Option<string>>, vl: nat, ex: nat, len: nat)
    requires vl < ex && ex + len < nv.Length
    modifies nv
    ensures forall i :: 0 <= i <= vl ==> nv[i] == old(nv[i])
    ensures forall i :: vl < i <= ex ==> nv[i + len] == old(nv[i])
  {
    var bp := ex;
    while bp != vl
      invariant vl <= bp <= ex
      invariant forall i :: bp < i <= ex ==> nv[i + len] == old(nv[i])
      invariant forall i :: 0 <= i <= bp ==> nv[i] == old(nv[i])
    {
      nv[bp + len] := nv[bp];
      bp := bp - 1;
    }
  }

  method Fill(nv: array<Option<string>>, vl: nat, bl: seq<string>)
    requires vl + |bl| <= nv.Length
    modifies nv
    ensures forall i :: 0 <= i < |bl| ==> nv[vl + i] == Some(bl[i])
    ensures forall i :: 0 <= i < vl || vl + |bl| <= i < nv.Length ==> nv[i] == old(nv[i])
  {
    var k := 0;
    while k < |bl|
      invariant 0 <= k <= |bl|
      invariant forall i :: 0 <= i < k ==> nv[vl + i] == Some(bl[i])
      invariant forall i :: 0 <= i < vl || vl + k <= i < nv.Length ==> nv[i] == old(nv[i])
    {
      nv[vl + k] := Some(bl[k]);
      k := k + 1;
    }
  }

  // Put the words bl in the place of word vl, moving the words behind it.
  method Splice(nv: array<Option<string>>, ex: nat, vl: nat, bl: seq<string>)
      returns (nv': array<Option<string>>, ex': nat)
    requires Vector(nv[..], ex) && vl < ex && |bl| > 0
    modifies nv
    ensures nv' == nv || fresh(nv')
    ensures Vector(nv'[..], ex')
    ensures var ws := Words(old(nv[..]), ex); Words(nv'[..], ex') == ws[..vl] + bl + ws[vl + 1..]
  {
    ghost var ws := Words(nv[..], ex);
    var len := |bl| - 1;
    nv' := Grow(nv, ex, len + 1);
    ghost var grown := nv'[..];
    assert forall i :: 0 <= i < ex ==> grown[i] == Some(ws[i]);
    MoveUp(nv', vl, ex, len);
    Fill(nv', vl, bl);
    ex' := ex + len;
    ghost var ws' := ws[..vl] + bl + ws[vl + 1..];
    forall i | 0 <= i < ex'
      ensures nv'[i] == Some(ws'[i])
    {
      if i > vl + len { assert nv'[i - len + len] == grown[i - len]; }
    }
    assert nv'[ex + len] == grown[ex];
  }

  method ExpBrace(v: array<Option<string>>, end: nat)
      returns (r: Result<(array<Option<string>>, nat), char>)
    requires Vector(v[..], end)
    modifies v
    ensures r.Success? ==>
              var (nv, ex) := r.value;
              && Vector(nv[..], ex)
              && ExpandAll(Words(old(v[..]), end)) == Success(Words(nv[..], ex))
              && forall w :: w in Words(nv[..], ex) ==> Final(w)
    ensures r.Failure? ==> ExpandAll(Words(old(v[..]), end)) == Failure(r.error)
  {
    var nv, ex := v, end;
    ghost var result := ExpandAll(Words(v[..], end));
    var vl := 0;
    while nv[vl].Some?
      invariant nv == v || fresh(nv)
      invariant Vector(nv[..], ex) && vl <= ex
      invariant forall w :: w in Words(nv[..], ex)[..vl] ==> Final(w)
      invariant ExpandAll(Words(nv[..], ex)) == result
      decreases WorkAll(Words(nv[..], ex)[vl..])
    {
      ghost var ws := Words(nv[..], ex);
      var s := nv[vl].value;
      if Exempt(s) || '{' !in s {
        // leave {} untouched for find
        WordPassed(ws, vl);
        vl := vl + 1;
      } else {
        var bl := GlobBrace(s);
        WordReplaced(ws, vl);
        if bl.Failure? {
          return Failure(bl.error);
        }
        // look at the replacements next
        nv, ex := Splice(nv, ex, vl, bl.value);
      }
    }
    ghost var ws := Words(nv[..], ex);
    assert ws[..vl] == ws;
    ExpandFinal(ws);
    r := Success((nv, ex));
  }

  lemma WordPassed(ws: seq<string>, vl: nat)
    requires vl < |ws| && Final(ws[vl]) && forall w :: w in ws[..vl] ==> Final(w)
    ensures forall w :: w in ws[..vl + 1] ==> Final(w)
    ensures WorkAll(ws[vl + 1..]) < WorkAll(ws[vl..])
  {
    assert ws[..vl + 1] == ws[..vl] + [ws[vl]];
    assert ws[vl..][1..] == ws[vl + 1..];
  }

  // The alternatives of a word in its place leave the expansion what it was, and less to do.
  lemma WordReplaced(ws: seq<string>, vl: nat)
    requires vl < |ws| && !Final(ws[vl]) && forall w :: w in ws[..vl] ==> Final(w)
    ensures match Alternatives(ws[vl])
            case Success(bl) =>
              var ws' := ws[..vl] + bl + ws[vl + 1..];
              && |bl| > 0 && ExpandAll(ws') == ExpandAll(ws) && ws'[..vl] == ws[..vl]
              && WorkAll(ws'[vl..]) < WorkAll(ws[vl..])
            case Failure(e) => ExpandAll(ws) == Failure(e)
  {
    var s := ws[vl];
    assert ws == ws[..vl] + [s] + ws[vl + 1..];
    ExpandReplace(ws[..vl], s, ws[vl + 1..]);
    if Alternatives(s).Success? {
      var bl := Alternatives(s).value;
      AlternativesShrink(s);
      WorkReplaced(ws, vl, bl);
    }
  }

  lemma WorkReplaced(ws: seq<string>, vl: nat, bl: seq<string>)
    requires vl < |ws| && !Final(ws[vl]) && Alternatives(ws[vl]) == Success(bl)
    ensures var ws' := ws[..vl] + bl + ws[vl + 1..]; ws'[..vl] == ws[..vl] && WorkAll(ws'[vl..]) < WorkAll(ws[vl..])
  {
    var ws' := ws[..vl] + bl + ws[vl + 1..];
    assert ws'[..vl] == ws[..vl];
    assert ws'[vl..] == bl + ws[vl + 1..];
    assert ws[vl..][1..] == ws[vl + 1..];
    WorkConcat(bl, ws[vl + 1..]);
  }
}

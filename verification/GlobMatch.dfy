// Matching a string against a pattern (bin/csh/glob.c: Gmatch, pmatch).
module GlobMatch {
  import opened Shared
  import opened BraceExpansion

  // Missing: the pattern lacks a bracket, an error is raised.
  // Overrun: the C code reads past the end of the string or of the pattern.
  datatype Match = NoMatch | Matched | Missing(c: char) | Overrun

  // ----- expansion never makes a word longer -----

  function MaxLen(ws: seq<string>): (n: nat)
    ensures forall w :: w in ws ==> |w| <= n
    ensures ws != [] ==> exists w :: w in ws && |w| == n
  {
    if ws == [] then 0
    else
      var n := MaxLen(ws[1..]);
      assert ws == [ws[0]] + ws[1..];
      assert ws[0] in ws && forall w :: w in ws[1..] ==> w in ws;
      if |ws[0]| > n || ws[1..] == [] then |ws[0]| else n
  }

  lemma {:induction false} PiecesLength(t: string, lo: nat, k: nat, pe: nat)
    requires lo <= k <= pe <= |t|
    ensures forall p :: p in Pieces(t, lo, k, pe) ==> |p| <= pe
    decreases pe - k
  {
    if k < pe {
      if TopLevel(t, k, ',') { PiecesLength(t, k + 1, k + 1, pe); } else { PiecesLength(t, lo, k + 1, pe); }
    }
  }

  lemma {:induction false} ExpandLength(w: string, n: nat)
    requires |w| <= n && Expand(w).Success?
    ensures forall x :: x in Expand(w).value ==> |x| <= n
    decreases Opens(w), 0, 0
  {
    if !Final(w) {
      AlternativesShrink(w);
      var b := IndexOf(w, '{');
      PiecesLength(w[b + 1..], 0, 0, Closing(w[b + 1..]).value);
      var ws := Alternatives(w).value;
      forall x | x in ws ensures |x| <= n {
        var i :| 0 <= i < |ws| && ws[i] == x;
        var ps := Pieces(w[b + 1..], 0, 0, Closing(w[b + 1..]).value);
        assert ps[i] in ps;
      }
      ExpandAllLength(ws, n);
    }
  }

  lemma {:induction false} ExpandAllLength(ws: seq<string>, n: nat)
    requires (forall w :: w in ws ==> |w| <= n) && ExpandAll(ws).Success?
    ensures forall x :: x in ExpandAll(ws).value ==> |x| <= n
    decreases MaxOpens(ws), 1, |ws|
  {
    if ws != [] {
      assert ws[0] in ws && forall w :: w in ws[1..] ==> w in ws;
      ExpandLength(ws[0], n);
      ExpandAllLength(ws[1..], n);
    }
  }

  // ----- what the matcher computes -----

  // The character under the string pointer, its quote bit stripped.
  function CharAt(s: string): char {
    Trim(First(s))
  }

  datatype ClassEnd = Closed(next: nat, matched: bool) | Unclosed | PastEnd

  // Scan [...] from index i of the pattern for the character c.
  function ClassScan(c: char, p: string, i: nat, matched: bool): (r: ClassEnd)
    requires 1 <= i <= |p|
    decreases |p| - i
    ensures r.Closed? ==> i < r.next <= |p|
  {
    if i == |p| then Unclosed
    else if p[i] == ']' then Closed(i + 1, matched)
    else if matched then ClassScan(c, p, i + 1, true)
    else if p[i] == '-' && p[i - 1] != '[' && (i + 1 == |p| || p[i + 1] != ']') then
      if i + 1 == |p| then PastEnd
      else ClassScan(c, p, i + 2, Trim(p[i - 1]) <= c <= Trim(p[i + 1]))
    else ClassScan(c, p, i + 1, c == Trim(p[i]))
  }

  // A ^ after [ negates the class.
  predicate Negated(p: string) {
    |p| > 1 && p[1] == '^'
  }

  function PMatch(s: string, p: string): Match
    decreases |p|, 0, |s|
  {
    if p == "" then
      if CharAt(s) == '\0' then Matched else NoMatch
    else if p[0] == '?' then
      if CharAt(s) == '\0' then NoMatch else PMatch(s[1..], p[1..])
    else if p[0] == '*' then
      if |p| == 1 then Matched else TrySuffixes(s, p[1..])
    else if p[0] == '[' then
      match ClassScan(CharAt(s), p, if Negated(p) then 2 else 1, false)
      case Unclosed => Missing(']')
      case PastEnd => Overrun
      case Closed(next, matched) =>
        if matched == Negated(p) then NoMatch
        else if s == "" then Overrun
        else PMatch(s[1..], p[next..])
    else
      if Trim(p[0]) != CharAt(s) then NoMatch
      else if s == "" then Overrun
      else PMatch(s[1..], p[1..])
  }

  // After a *: the non-empty suffixes of s, longest first.
  function TrySuffixes(s: string, p: string): Match
    decreases |p|, 3, |s|
  {
    if s == "" then NoMatch
    else
      var r := GMatch(s, p);
      if r == NoMatch then TrySuffixes(s[1..], p) else r
  }

  // Every word is tried; the first error wins.
  function AnyMatch(s: string, ws: seq<string>): Match
    decreases MaxLen(ws), 1, |ws|
  {
    if ws == [] then NoMatch
    else
      assert ws[0] in ws && forall w :: w in ws[1..] ==> w in ws;
      var r := PMatch(s, ws[0]);
      if r.Missing? || r.Overrun? then r
      else
        var t := AnyMatch(s, ws[1..]);
        if t == NoMatch then r else t
  }

  function Flip(r: Match, negated: bool): Match {
    if !negated then r
    else if r == NoMatch then Matched
    else if r == Matched then NoMatch
    else r
  }

  function GMatch(s: string, p: string): Match
    decreases |p|, 2, 0
  {
    var negated := First(p) == '^';
    var body := if negated then p[1..] else p;
    match Expand(body)
    case Failure(c) => Missing(c)
    case Success(ws) => ExpandLength(body, |body|); Flip(AnyMatch(s, ws), negated)
  }

  // ----- the code: two loops that call each other -----

  method Gmatch(string_: string, pattern: string) returns (r: Match)
    ensures r == GMatch(string_, pattern)
    decreases |pattern|, 2
  {
    var gpol, p := true, pattern;
    if First(p) == '^' {
      gpol := false;
      p := p[1..];
    }
    var blk := new Option<string>[GLOBSPACE](i => None);
    blk[0] := Some(p);
    assert Words(blk[..], 1) == [p];
    ExpandOne(p);
    var x := ExpBrace(blk, 1);
    if x.Failure? {
      return Missing(x.error);
    }
    var (nv, ex) := x.value;
    ghost var ws := Words(nv[..], ex);
    ExpandLength(p, |p|);
    var gres := false;
    var i := 0;
    while nv[i].Some?
      invariant 0 <= i <= ex && Vector(nv[..], ex) && Words(nv[..], ex) == ws
      invariant AnyMatch(string_, ws) ==
                var t := AnyMatch(string_, ws[i..]);
                if t == NoMatch then (if gres then Matched else NoMatch) else t
      decreases ex - i
    {
      assert nv[i].value == ws[i] && ws[i] in ws;
      assert ws[i..][1..] == ws[i + 1..];
      var m := Pmatch(string_, nv[i].value);
      if m.Missing? || m.Overrun? {
        return m;
      }
      gres := gres || m == Matched;
      i := i + 1;
    }
    assert ws[i..] == [];
    r := if gres == gpol then Matched else NoMatch;
  }

  lemma ExpandOne(w: string)
    ensures ExpandAll([w]) == Expand(w)
  {
    assert [w][1..] == [];
    if Expand(w).Success? { assert Expand(w).value + [] == Expand(w).value; }
  }

  method MatchClass(c: char, p: string) returns (r: ClassEnd)
    requires p != "" && p[0] == '['
    ensures r == ClassScan(c, p, if Negated(p) then 2 else 1, false)
  {
    var i := if Negated(p) then 2 else 1;
    ghost var start := i;
    var matched := false;
    while i < |p|
      invariant 1 <= i <= |p|
      invariant ClassScan(c, p, start, false) == ClassScan(c, p, i, matched)
      decreases |p| - i
    {
      if p[i] == ']' {
        return Closed(i + 1, matched);
      }
      if matched {
        i := i + 1;
        continue;
      }
      if p[i] == '-' && p[i - 1] != '[' && (i + 1 == |p| || p[i + 1] != ']') {
        if i + 1 == |p| {
          return PastEnd;
        }
        matched := c <= Trim(p[i + 1]) && Trim(p[i - 1]) <= c;
        i := i + 2;
      } else {
        matched := c == Trim(p[i]);
        i := i + 1;
      }
    }
    r := Unclosed;
  }

  method Pmatch(string_: string, pattern: string) returns (r: Match)
    ensures r == PMatch(string_, pattern)
    decreases |pattern|, 0
  {
    var s, p := string_, pattern;
    while true
      invariant |p| <= |pattern| && PMatch(string_, pattern) == PMatch(s, p)
      decreases |p|
    {
      var stringc := CharAt(s);
      if p == "" {
        return if stringc == '\0' then Matched else NoMatch;
      }
      var patternc := p[0];
      if patternc == '?' {
        if stringc == '\0' {
          return NoMatch;
        }
        p := p[1..];
      } else if patternc == '*' {
        if |p| == 1 {
          return Matched;
        }
        while s != ""
          invariant TrySuffixes(s, p[1..]) == PMatch(string_, pattern)
          decreases |s|
        {
          var m := Gmatch(s, p[1..]);
          if m != NoMatch {
            return m;
          }
          s := s[1..];
        }
        return NoMatch;
      } else if patternc == '[' {
        var e := MatchClass(stringc, p);
        if e == Unclosed {
          return Missing(']');
        } else if e == PastEnd {
          return Overrun;
        }
        if e.matched == Negated(p) {
          return NoMatch;
        }
        p := p[e.next..];
      } else {
        if Trim(patternc) != stringc {
          return NoMatch;
        }
        p := p[1..];
      }
      if s == "" {
        return Overrun;
      }
      s := s[1..];
    }
  }
}

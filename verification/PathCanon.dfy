// Path canonicalisation in place (bin/csh/dir.c: dcanon, dgoto).
module PathCanon {
  import opened Shared
  import opened PathSpec

  const NUL := '\0'

  // The buffer, which has room for the original text of length n and its NUL, holds the
  // text of length m.
  predicate Holds(a: seq<char>, m: nat, n: nat) {
    && m <= n && n + 1 == |a|
    && (forall i :: 0 <= i < m ==> a[i] != NUL) && a[m] == NUL && a[n] == NUL
  }

  // The text is the names st followed by rest, p standing between them.
  ghost predicate At(a: seq<char>, m: nat, n: nat, st: seq<string>, rest: string, p: nat) {
    Holds(a, m, n) && Names(st) && IsRest(rest) && a[..m] == Render(st) + rest && p == |Render(st)|
  }

  // Strcpy within the buffer, downwards: the text from src on moves to dst.
  method CopyDown(a: array<char>, dst: nat, src: nat, ghost m: nat, ghost n: nat)
    requires dst < src <= m <= n && n + 1 == a.Length && a[m] == NUL && a[n] == NUL
    requires forall i :: 0 <= i < dst || src <= i < m ==> a[i] != NUL
    modifies a
    ensures Holds(a[..], m - (src - dst), n)
    ensures a[..m - (src - dst)] == old(a[..dst]) + old(a[src..m])
  {
    var p1, p2 := dst, src;
    ghost var d := src - dst;
    while a[p2] != NUL
      invariant src <= p2 <= m && p1 == p2 - d
      invariant forall i :: 0 <= i < dst ==> a[i] == old(a[i])
      invariant forall i :: src <= i < p2 ==> a[i - d] == old(a[i])
      invariant forall i :: p2 <= i < a.Length ==> a[i] == old(a[i])
      decreases m - p2
    {
      a[p1] := a[p2];
      p1, p2 := p1 + 1, p2 + 1;
    }
    a[p1] := NUL;
    forall k | 0 <= k < m - d ensures a[k] == (old(a[..dst]) + old(a[src..m]))[k] {
      if k >= dst { assert a[k + d - d] == old(a[k + d]); }
    }
  }

  lemma TextAt(a: seq<char>, m: nat, n: nat, st: seq<string>, rest: string, p: nat, i: nat)
    requires At(a, m, n, st, rest, p) && i <= |rest|
    ensures p + |rest| == m
    ensures i < |rest| ==> a[p + i] == rest[i] != NUL
    ensures i == |rest| ==> a[p + i] == NUL
  {
    if i < |rest| { assert a[p + i] == a[..m][p + i] == rest[i]; }
  }

  method PastSlashes(a: array<char>, p: nat, ghost m: nat, ghost n: nat, ghost st: seq<string>, ghost rest: string)
      returns (q: nat)
    requires At(a[..], m, n, st, rest, p) && rest != ""
    ensures p < q <= m && q - p <= |rest|
    ensures forall i :: 0 <= i < q - p ==> rest[i] == '/'
    ensures q - p < |rest| ==> rest[q - p] != '/'
  {
    q := p + 1;
    TextAt(a[..], m, n, st, rest, p, 0);
    TextAt(a[..], m, n, st, rest, p, 1);
    while a[q] == '/'
      invariant p < q <= m && q - p <= |rest|
      invariant forall i :: 0 <= i < q - p ==> rest[i] == '/'
      invariant a[q] == if q - p < |rest| then rest[q - p] else NUL
      decreases m - q
    {
      q := q + 1;
      TextAt(a[..], m, n, st, rest, p, q - p);
    }
  }

  // Flush extra slashes: the slash at p is then the only one in front of the component.
  method FlushSlashes(a: array<char>, p: nat, ghost m: nat, ghost n: nat, ghost st: seq<string>, ghost rest: string)
      returns (ghost m': nat, ghost k: nat)
    requires At(a[..], m, n, st, rest, p) && rest != ""
    modifies a
    ensures 1 <= k <= |rest| && forall i :: 0 <= i < k ==> rest[i] == '/'
    ensures m' <= m && At(a[..], m', n, st, "/" + rest[k..], p)
    ensures (m' == m <==> k == 1) && (k == 1 ==> a[..] == old(a[..]))
    ensures k < |rest| ==> rest[k] != '/'
  {
    var q := PastSlashes(a, p, m, n, st, rest);
    k := q - p;
    m' := DropSlashes(a, p, q, m, n, st, rest);
  }

  method DropSlashes(a: array<char>, p: nat, q: nat, ghost m: nat, ghost n: nat, ghost st: seq<string>,
          ghost rest: string)
      returns (ghost m': nat)
    requires At(a[..], m, n, st, rest, p) && p < q <= p + |rest| && IsRest("/" + rest[q - p..])
    requires rest[0] == '/'
    modifies a
    ensures m' <= m && At(a[..], m', n, st, "/" + rest[q - p..], p)
    ensures (m' == m <==> q == p + 1) && (q == p + 1 ==> a[..] == old(a[..]))
  {
    TextParts(a[..], m, n, st, rest, p, q - p);
    if q != p + 1 {
      ghost var before := a[..];
      m' := m - (q - (p + 1));
      CopyDown(a, p + 1, q, m, n);
      Joined(before, a[..], m, m', n, st, rest, p, p + 1, q, rest[q - p..]);
    } else {
      m' := m;
      assert "/" + rest[1..] == rest;
    }
  }

  // Text copied down to behind the slash at p.
  lemma Joined(before: seq<char>, a: seq<char>, m: nat, m': nat, n: nat, st: seq<string>, rest: string, p: nat,
          dst: nat, src: nat, tail: string)
    requires dst == p + 1 <= src <= m <= |before| && Names(st) && p == |Render(st)|
    requires before[..dst] == Render(st) + "/" && before[src..m] == tail && IsRest("/" + tail)
    requires Holds(a, m', n) && a[..m'] == before[..dst] + before[src..m]
    ensures At(a, m', n, st, "/" + tail, p)
  {
    assert Render(st) + "/" + tail == Render(st) + ("/" + tail);
  }

  // The text in front of and behind offset k of the rest.
  lemma TextParts(a: seq<char>, m: nat, n: nat, st: seq<string>, rest: string, p: nat, k: nat)
    requires At(a, m, n, st, rest, p) && 1 <= k <= |rest|
    ensures p + k <= m && a[..p] == Render(st) && a[..p + 1] == Render(st) + "/" && a[p + k..m] == rest[k..]
  {
    var t := a[..m];
    assert |t| == p + |rest|;
    assert a[..p] == t[..p] && a[..p + 1] == t[..p + 1] && a[p + k..m] == t[p + k..];
    assert t[..p] == Render(st);
    assert t[..p + 1] == Render(st) + "/";
    assert t[p + k..] == rest[k..];
  }

  // ----- one component -----

  // The component c stands behind the slash at p, cut off by a NUL at q; tail is what
  // followed it, its slash being the NUL at q.
  ghost predicate Cut(a: seq<char>, m: nat, n: nat, st: seq<string>, c: string, tail: string, p: nat, q: nat) {
    && Names(st) && IsName(c) && IsRest(tail)
    && p == |Render(st)| && p + 1 + |c| == q <= m <= n && n + 1 == |a|
    && a[..p + 1] == Render(st) + "/" && a[p + 1..q] == c && a[q] == NUL
    && (if tail == "" then q == m else q < m && a[q + 1..m] == tail[1..])
    && (forall i :: 0 <= i < m && i != q ==> a[i] != NUL)
    && a[m] == NUL && a[n] == NUL
  }

  // Find the next slash or the end, and put a NUL over a slash. The search begins behind
  // the first character of the component, so with an empty one at the end of the buffer it
  // leaves the buffer.
  method EndOfComponent(a: array<char>, sp: nat, ghost m: nat, ghost n: nat)
      returns (q: nat, slash: bool, over: bool)
    requires Holds(a[..], m, n) && sp <= m
    modifies a
    ensures over <==> sp == n
    ensures over ==> a[..] == old(a[..])
    ensures !over ==>
              && sp < q <= n
              && (forall i :: sp < i < q ==> a[i] == old(a[i]) && a[i] != NUL && a[i] != '/')
              && (forall i :: 0 <= i < a.Length && i != q ==> a[i] == old(a[i]))
              && a[q] == NUL && old(a[q]) == if slash then '/' else NUL
  {
    q := sp + 1;
    slash, over := false, q == a.Length;
    if over {
      return;
    }
    while a[q] != NUL
      invariant sp < q <= n
      invariant forall i :: sp < i < q ==> a[i] != NUL && a[i] != '/'
      invariant forall i :: 0 <= i < a.Length ==> a[i] == old(a[i])
      decreases n - q
    {
      if a[q] == '/' {
        slash := true;
        a[q] := NUL;
        return;
      }
      q := q + 1;
    }
  }

  // The component found this way is the next one of the text.
  lemma ComponentCut(a0: seq<char>, a: seq<char>, m: nat, n: nat, st: seq<string>, rest: string, p: nat,
          q: nat, slash: bool)
      returns (c: string, tail: string)
    requires At(a0, m, n, st, rest, p) && |rest| > 1 && rest[1] != '/'
    requires p + 1 < q <= n && |a| == |a0| && forall i :: 0 <= i < |a| && i != q ==> a[i] == a0[i]
    requires forall i :: p + 1 < i < q ==> a[i] != NUL && a[i] != '/'
    requires a[q] == NUL && a0[q] == if slash then '/' else NUL
    ensures Cut(a, m, n, st, c, tail, p, q) && rest == "/" + c + tail && (slash <==> tail != "")
  {
    var j := q - p;
    TextParts(a0, m, n, st, rest, p, 1);
    assert |a0[..m]| == p + |rest| == m;
    assert q <= m;
    TextParts(a0, m, n, st, rest, p, j);
    c, tail := rest[1..j], rest[j..];
    assert a[..p + 1] == a0[..p + 1];
    SliceOf(a, a0, p + 1, q, m, rest[1..], c);
    NameBetween(a, p + 1, q, c);
    if slash {
      assert a[q + 1..m] == a0[q + 1..m] == a0[q..m][1..] == tail[1..];
    }
  }

  lemma SliceOf(a: seq<char>, a0: seq<char>, lo: nat, hi: nat, m: nat, after: string, c: string)
    requires lo < hi <= m <= |a| == |a0| && after == a0[lo..m] && c == after[..hi - lo]
    requires forall i :: lo <= i < hi ==> a[i] == a0[i]
    ensures a[lo..hi] == c && after[0] == a[lo]
  {
  }

  lemma NameBetween(a: seq<char>, lo: nat, hi: nat, c: string)
    requires lo < hi <= |a| && c == a[lo..hi] && a[lo] != NUL && a[lo] != '/'
    requires forall i :: lo < i < hi ==> a[i] != NUL && a[i] != '/'
    ensures IsName(c)
  {
    assert forall k :: 0 <= k < |c| ==> c[k] == a[lo + k];
  }

  lemma RenderPush(st: seq<string>, c: string)
    ensures Render(st + [c]) == Render(st) + "/" + c
  {
    assert (st + [c])[..|st|] == st;
  }

  // ----- the cases -----

  lemma CutText(a: seq<char>, m: nat, n: nat, st: seq<string>, c: string, p: nat, q: nat)
    requires Cut(a, m, n, st, c, "", p, q)
    ensures Holds(a, m, n) && a[..m] == Render(st) + "/" + c && a[..p] == Render(st)
  {
    assert a[..q] == a[..p + 1] + a[p + 1..q];
    assert a[..p] == a[..p + 1][..p];
  }

  // Text that follows the cut is moved to behind the slash at r, which ends the text of
  // the names pre.
  method MoveTail(a: array<char>, r: nat, ghost m: nat, ghost n: nat, ghost st: seq<string>, ghost pre: seq<string>,
                  ghost c: string, ghost tail: string, ghost p: nat, q: nat)
      returns (ghost m': nat)
    requires Cut(a[..], m, n, st, c, tail, p, q) && tail != ""
    requires Names(pre) && r == |Render(pre)| && r <= p && a[..r + 1] == Render(pre) + "/"
    modifies a
    ensures At(a[..], m', n, pre, tail, r) && m' < m
  {
    ghost var before := a[..];
    m' := m - (q + 1 - (r + 1));
    CopyDown(a, r + 1, q + 1, m, n);
    assert tail == "/" + tail[1..];
    assert before[q + 1..m] == tail[1..] && before[..r + 1] == Render(pre) + "/";
    Joined(before, a[..], m, m', n, pre, "/", r, r + 1, q + 1, tail[1..]);
  }

  // A final . is cut off with its slash, unless the slash is the root.
  method DotAtEnd(a: array<char>, p: nat, ghost m: nat, ghost n: nat, ghost st: seq<string>, ghost q: nat)
      returns (ghost m': nat)
    requires Cut(a[..], m, n, st, ".", "", p, q)
    modifies a
    ensures Holds(a[..], m', n) && a[q] == NUL
    ensures a[..m'] == if st == [] then "/." else Render(st)
  {
    CutText(a[..], m, n, st, ".", p, q);
    RenderEmpty(st);
    m' := m;
    if p != 0 {
      a[p] := NUL;
      m' := p;
    }
  }

  lemma RenderEmpty(st: seq<string>)
    ensures |Render(st)| == 0 <==> st == []
  {
  }

  // Back up from the slash at p to the slash in front of the name before it.
  method BackUp(a: array<char>, p: nat, ghost st: seq<string>) returns (r: nat)
    requires Names(st) && p == |Render(st)| && p < a.Length && a[..p + 1] == Render(st) + "/"
    ensures r <= p
    ensures var pre := if st == [] then [] else st[..|st| - 1];
            Names(pre) && r == |Render(pre)| && a[..r + 1] == Render(pre) + "/"
  {
    RenderEmpty(st);
    r := p;
    if p != 0 {
      ghost var pre := st[..|st| - 1];
      ghost var c := st[|st| - 1];
      ghost var u := |Render(pre)|;
      assert a[..p + 1] == Render(pre) + "/" + c + "/";
      assert forall i :: u < i < p ==> a[i] == a[..p + 1][i] == c[i - u - 1] != '/';
      assert a[u] == a[..p + 1][u] == '/';
      r := r - 1;
      while a[r] != '/'
        invariant u <= r < p
        decreases r
      {
        assert r != u;
        r := r - 1;
      }
      assert a[..r + 1] == a[..p + 1][..r + 1] == Render(pre) + "/";
    }
  }

  // A final .. leaves the text of the names before the last, or the root.
  method DotDotAtEnd(a: array<char>, r: nat, ghost m: nat, ghost n: nat, ghost st: seq<string>, ghost pre: seq<string>,
                     ghost p: nat, ghost q: nat)
      returns (ghost m': nat)
    requires Cut(a[..], m, n, st, "..", "", p, q)
    requires Names(pre) && r == |Render(pre)| && r <= p && a[..r + 1] == Render(pre) + "/"
    modifies a
    ensures Holds(a[..], m', n) && a[..m'] == Absolute(pre) && a[q] == NUL
  {
    RenderEmpty(pre);
    ghost var before := a[..];
    if r == 0 {
      a[1] := NUL;
      m' := 1;
      assert a[..1] == before[..1] == "/";
    } else {
      a[r] := NUL;
      m' := r;
      assert a[..r] == before[..r + 1][..r];
    }
  }

  // ----- the loop -----

  // One round of the loop on a component that is not empty: either the loop goes on at
  // p' with more text, or the text is final and p' stands on a NUL.
  method Round(a: array<char>, p: nat, q: nat, slash: bool, ghost m: nat, ghost n: nat, ghost st: seq<string>,
               ghost c: string, ghost tail: string)
      returns (p': nat, ghost m': nat)
    requires Cut(a[..], m, n, st, c, tail, p, q) && (slash <==> tail != "")
    modifies a
    ensures m' <= m
    ensures slash ==> At(a[..], m', n, Push(st, c), tail, p') && (m' == m <==> Proper([c]))
    ensures !slash ==>
              && p' == q && Holds(a[..], m', n) && a[p'] == NUL
              && a[..m'] == if c == "." && st == [] then "/." else Absolute(Push(st, c))
  {
    var sp := p + 1;
    CutChars(a[..], m, n, st, c, tail, p, q);
    p' := q;
    if a[sp] == '.' && a[sp + 1] == NUL {
      if slash {
        m' := MoveTail(a, p, m, n, st, st, c, tail, p, q);
        p' := p;
      } else {
        m' := DotAtEnd(a, p, m, n, st, q);
        RenderEmpty(st);
      }
    } else if a[sp] == '.' && a[sp + 1] == '.' && a[sp + 2] == NUL {
      var r := BackUp(a, p, st);
      ghost var pre := Push(st, c);
      if slash {
        m' := MoveTail(a, r, m, n, st, pre, c, tail, p, q);
        p' := r;
      } else {
        m' := DotDotAtEnd(a, r, m, n, st, pre, p, q);
      }
    } else {
      m' := m;
      if slash {
        KeepName(a[..], m, n, st, c, tail, p, q);
        a[q] := '/';
      } else {
        CutText(a[..], m, n, st, c, p, q);
        RenderPush(st, c);
      }
    }
  }

  lemma CutChars(a: seq<char>, m: nat, n: nat, st: seq<string>, c: string, tail: string, p: nat, q: nat)
    requires Cut(a, m, n, st, c, tail, p, q)
    ensures a[p + 1] == '.' && a[p + 2] == NUL <==> c == "."
    ensures a[p + 1] == '.' && a[p + 2] == '.' && a[p + 3] == NUL <==> c == ".."
  {
    assert forall i :: 0 <= i < |c| ==> a[p + 1 + i] == a[p + 1..q][i] == c[i];
    assert a[p + 1] == c[0];
    if |c| > 1 { assert a[p + 2] == c[1]; }
    if |c| > 2 { assert a[p + 3] == c[2]; }
  }

  // The slash behind a name is put back.
  lemma KeepName(a: seq<char>, m: nat, n: nat, st: seq<string>, c: string, tail: string, p: nat, q: nat)
    requires Cut(a, m, n, st, c, tail, p, q) && tail != ""
    ensures At(a[q := '/'], m, n, st + [c], tail, q)
  {
    var b := a[q := '/'];
    RenderPush(st, c);
    assert tail == "/" + tail[1..];
    assert b[..m] == b[..p + 1] + b[p + 1..q] + ["/"[0]] + b[q + 1..m];
    assert b[..p + 1] == a[..p + 1] && b[p + 1..q] == a[p + 1..q] && b[q + 1..m] == a[q + 1..m];
    assert b[..m] == Render(st) + "/" + c + tail;
  }

  // What is left of a path once its last component is c.
  function LastText(st: seq<string>, c: string): string {
    if c == "." && st == [] then "/." else Absolute(Push(st, c))
  }

  // An empty last component: its slash goes, unless it is the root.
  method EmptyComponent(a: array<char>, p: nat, q: nat, ghost before: seq<char>, ghost m: nat, ghost n: nat,
          ghost st: seq<string>)
      returns (p': nat, stop: bool, ghost m': nat)
    requires At(before, m, n, st, "/", p) && a.Length == |before| && p + 1 < q <= n
    requires (forall i :: 0 <= i < a.Length && i != q ==> a[i] == before[i]) && a[q] == NUL
    modifies a
    ensures Holds(a[..], m', n) && a[..m'] == LastText(st, "")
    ensures p' < a.Length && (stop || a[p'] == NUL)
  {
    RenderEmpty(st);
    TextParts(before, m, n, st, "/", p, 1);
    assert |before[..m]| == p + 1;
    p', stop, m' := q, p == 0, m;
    if p != 0 {
      a[p] := NUL;
      m' := p;
      assert a[..p] == before[..p];
    } else {
      assert a[..1] == before[..1];
    }
  }

  // One round of the loop, from the slash at p. It leaves the buffer when nothing has been
  // moved yet and the last component is empty.
  method OneComponent(a: array<char>, p: nat, ghost m: nat, ghost n: nat, ghost st: seq<string>, ghost rest: string)
      returns (p': nat, stop: bool, over: bool, ghost m': nat, ghost k: nat, ghost c: string, ghost tail: string)
    requires At(a[..], m, n, st, rest, p) && rest != ""
    modifies a
    ensures Taken(rest, k, c, tail) && m' <= m
    ensures over <==> m == n && k == 1 && c == "" && tail == ""
    ensures over ==> stop && a[..] == old(a[..])
    ensures tail != "" ==>
              && c != "" && p' < a.Length && !stop
              && At(a[..], m', n, Push(st, c), tail, p') && (m' == m <==> k == 1 && Proper([c]))
    ensures tail == "" && !over ==>
              p' < a.Length && Holds(a[..], m', n) && a[..m'] == LastText(st, c) && (stop || a[p'] == NUL)
  {
    m', k := FlushSlashes(a, p, m, n, st, rest);
    ghost var behind := rest[k..];
    ghost var before := a[..];
    TextAt(before, m', n, st, "/" + behind, p, 1);
    var q, slash;
    q, slash, over := EndOfComponent(a, p + 1, m', n);
    p', stop, c, tail := q, over, "", "";
    if !over {
      if a[p + 1] == NUL {
        p', stop, m' := EmptyComponent(a, p, q, before, m', n, st);
      } else {
        c, tail := ComponentCut(before, a[..], m', n, st, "/" + behind, p, q, slash);
        Behind(behind, c, tail);
        p', m' := Round(a, p, q, slash, m', n, st, c, tail);
      }
    }
  }

  lemma Behind(behind: string, c: string, tail: string)
    requires "/" + behind == "/" + c + tail
    ensures behind == c + tail
  {
    assert behind == ("/" + behind)[1..];
    assert c + tail == ("/" + c + tail)[1..];
  }

  // The rest is k slashes, the component c, and tail.
  predicate Taken(rest: string, k: nat, c: string, tail: string) {
    && 1 <= k <= |rest| && (forall i :: 0 <= i < k ==> rest[i] == '/')
    && '/' !in c && NUL !in c && IsRest(tail) && rest[k..] == c + tail
  }

  lemma CanonTaken(st: seq<string>, rest: string, k: nat, c: string, tail: string)
    requires IsRest(rest) && Taken(rest, k, c, tail)
    ensures |tail| < |rest|
    ensures Canon(st, rest) == if tail == "" then LastText(st, c) else Canon(Push(st, c), tail)
  {
    CanonManySlashes(st, rest, k);
    assert "/" + rest[k..] == "/" + c + tail;
    if tail == "" {
      assert "/" + c + "" == "/" + c;
      CanonLast(st, c);
    } else {
      CanonStep(st, c, tail);
    }
  }

  lemma LoneTaken(rest: string, k: nat, c: string, tail: string)
    requires IsRest(rest) && Taken(rest, k, c, tail) && (c == "" ==> tail == "")
    ensures LoneSlash(rest) <==> k == 1 && if tail == "" then c == "" else Proper([c]) && LoneSlash(tail)
  {
    if k == 1 {
      assert rest == "/" + c + tail;
      LoneStep(c, tail);
    } else {
      var more := rest[1..];
      assert rest == "/" + "" + more && more[0] == '/';
      LoneStep("", more);
      assert !Proper([""]) by { assert [""][0] == ""; }
    }
  }

  // A proper name behind one slash is kept where it stands.
  lemma KeptText(st: seq<string>, rest: string, c: string, tail: string)
    requires Taken(rest, 1, c, tail) && Proper([c])
    ensures Render(Push(st, c)) + tail == Render(st) + rest
  {
    assert [c][0] == c;
    RenderPush(st, c);
    assert rest == "/" + c + tail;
    assert Render(st) + "/" + c + tail == Render(st) + ("/" + c + tail);
  }

  // What is ahead of the loop is what was ahead of it at the start, moved or not.
  ghost predicate Ahead(names: seq<string>, more: string, st: seq<string>, rest: string, moved: bool) {
    && IsRest(more) && IsRest(rest)
    && Canon(names, more) == Canon(st, rest)
    && (LoneSlash(rest) <==> !moved && LoneSlash(more))
    && (!moved ==> Render(names) + more == Render(st) + rest)
  }

  lemma AheadStep(names: seq<string>, more: string, st: seq<string>, rest: string, moved: bool,
          k: nat, c: string, tail: string, moved': bool)
    requires Ahead(names, more, st, rest, moved) && Taken(more, k, c, tail) && tail != "" && c != ""
    requires moved' <==> moved || k > 1 || !Proper([c])
    ensures Ahead(Push(names, c), tail, st, rest, moved') && |tail| < |more|
  {
    CanonTaken(names, more, k, c, tail);
    LoneTaken(more, k, c, tail);
    if k == 1 && Proper([c]) { KeptText(names, more, c, tail); }
  }

  lemma AheadEnd(names: seq<string>, more: string, st: seq<string>, rest: string, moved: bool, k: nat, c: string)
    requires Ahead(names, more, st, rest, moved) && Taken(more, k, c, "")
    ensures Canon(st, rest) == LastText(names, c)
    ensures LoneSlash(rest) <==> !moved && k == 1 && c == ""
  {
    CanonTaken(names, more, k, c, "");
    LoneTaken(more, k, c, "");
  }

  // The loop goes on from the slash at p.
  ghost predicate Going(a: seq<char>, m: nat, n: nat, names: seq<string>, more: string, p: nat,
                        st: seq<string>, rest: string) {
    more != "" && At(a, m, n, names, more, p) && Ahead(names, more, st, rest, m < n)
  }

  // The buffer holds what is wanted, or the loop has left it.
  ghost predicate Done(a: seq<char>, m: nat, n: nat, over: bool, start: seq<char>, st: seq<string>, rest: string) {
    && IsRest(rest) && (over <==> LoneSlash(rest))
    && (over ==> a == start)
    && (!over ==> Holds(a, m, n) && a[..m] == Canon(st, rest))
  }

  method Advance(a: array<char>, p: nat, ghost m: nat, ghost n: nat, ghost names: seq<string>, ghost more: string,
                 ghost start: seq<char>, ghost st: seq<string>, ghost rest: string)
      returns (p': nat, stop: bool, over: bool, ghost m': nat, ghost names': seq<string>, ghost more': string)
    requires Going(a[..], m, n, names, more, p, st, rest)
    requires |start| == n + 1 && start[n] == NUL && start[..n] == Render(st) + rest
    modifies a
    ensures |more'| < |more|
    ensures more' != "" ==> !stop && p' < a.Length && Going(a[..], m', n, names', more', p', st, rest)
    ensures more' == "" ==> Done(a[..], m', n, over, start, st, rest) && (stop || (p' < a.Length && a[p'] == NUL))
    ensures over ==> stop
  {
    ghost var k, c, was := 0, "", a[..];
    p', stop, over, m', k, c, more' := OneComponent(a, p, m, n, names, more);
    names' := Push(names, c);
    if more' != "" {
      AheadStep(names, more, st, rest, m < n, k, c, more', m' < n);
    } else {
      AheadEnd(names, more, st, rest, m < n, k, c);
      if over { SameText(was, start, n, names, more, st, rest); }
    }
  }

  // From the slash at start on, behind the canonical text of the names st, the buffer is
  // rewritten to the canonical text of the whole path. The loop reads behind the buffer
  // exactly when the text is canonical but for a slash at its end, which it then has not
  // taken away yet.
  method DCanon(a: array<char>, start: nat, ghost n: nat, ghost st: seq<string>, ghost rest: string)
      returns (over: bool, ghost m: nat)
    requires At(a[..], n, n, st, rest, start)
    modifies a
    ensures over <==> LoneSlash(rest)
    ensures over ==> a[..] == old(a[..])
    ensures !over ==> Holds(a[..], m, n) && a[..m] == Canon(st, rest)
  {
    var p: nat, stop := start, false;
    over, m := false, n;
    ghost var names, more := st, rest;
    TextAt(a[..], m, n, st, rest, p, 0);
    while !stop && a[p] != NUL
      invariant !stop ==> p < a.Length
      invariant more != "" ==> !stop && Going(a[..], m, n, names, more, p, st, rest) && a[p] != NUL
      invariant more == "" ==> (stop || a[p] == NUL) && Done(a[..], m, n, over, old(a[..]), st, rest)
      decreases |more|
    {
      p, stop, over, m, names, more := Advance(a, p, m, n, names, more, old(a[..]), st, rest);
      if more != "" { TextAt(a[..], m, n, names, more, p, 0); }
    }
  }

  lemma SameText(a: seq<char>, b: seq<char>, n: nat, st: seq<string>, rest: string, st': seq<string>, rest': string)
    requires |a| == |b| == n + 1 && a[n] == b[n]
    requires a[..n] == Render(st) + rest && b[..n] == Render(st') + rest' && Render(st) + rest == Render(st') + rest'
    ensures a == b
  {
    assert a == a[..n] + [a[n]] && b == b[..n] + [b[n]];
  }

  // ----- the text to canonicalise -----

  // Strcpy into the buffer at position at.
  method CopyIn(a: array<char>, at: nat, s: string)
    requires at + |s| < a.Length
    modifies a
    ensures a[..at + |s|] == old(a[..at]) + s && a[at + |s|] == NUL
    ensures forall i :: at + |s| < i < a.Length ==> a[i] == old(a[i])
  {
    var i := 0;
    while i < |s|
      invariant i <= |s| && a[..at + i] == old(a[..at]) + s[..i]
      invariant forall j :: at + i <= j < a.Length ==> a[j] == old(a[j])
    {
      a[at + i] := s[i];
      i := i + 1;
      assert s[..i] == s[..i - 1] + [s[i - 1]];
      assert a[..at + i] == a[..at + i - 1] + [s[i - 1]];
    }
    a[at + i] := NUL;
    assert s[..i] == s;
  }

  method FromRoot(cp: string) returns (a: array<char>, over: bool, ghost m: nat)
    requires NUL !in cp && cp != "" && cp[0] == '/'
    ensures fresh(a) && a.Length == |cp| + 1
    ensures over <==> LoneSlash(cp)
    ensures !over ==> Holds(a[..], m, |cp|) && a[..m] == Canon([], cp)
  {
    a := new char[|cp| + 1](_ => NUL);
    CopyIn(a, 0, cp);
    Laid(a[..], |cp|, [], cp);
    over, m := DCanon(a, 0, |cp|, [], cp);
  }

  method FromHere(cwd: string, cp: string, ghost st: seq<string>) returns (a: array<char>, over: bool, ghost m: nat)
    requires Names(st) && cwd == Absolute(st) && NUL !in cp
    ensures fresh(a) && a.Length == |Render(st)| + |cp| + 2
    ensures over <==> LoneSlash("/" + cp)
    ensures !over ==> Holds(a[..], m, a.Length - 1) && a[..m] == Canon(st, "/" + cp)
  {
    var cwdlen := if |cwd| == 1 then 0 else |cwd|;
    OneIsRoot(st);
    ghost var n := cwdlen + 1 + |cp|;
    a := new char[cwdlen + |cp| + 2](_ => NUL);
    CopyIn(a, 0, cwd);
    if cwdlen != 0 {
      a[cwdlen] := '/';
    }
    assert a[..cwdlen + 1] == Render(st) + "/";
    CopyIn(a, cwdlen + 1, cp);
    assert a[..n] == Render(st) + ("/" + cp);
    Laid(a[..], n, st, "/" + cp);
    over, m := DCanon(a, cwdlen, n, st, "/" + cp);
  }

  // Where the user wants to go: an absolute path from the root on, another one from the
  // working directory on.
  method DGoto(cwd: string, cp: string, ghost st: seq<string>) returns (a: array<char>, over: bool, ghost m: nat)
    requires Names(st) && cwd == Absolute(st) && NUL !in cp
    ensures fresh(a) && a.Length >= 1
    ensures var rooted := cp != "" && cp[0] == '/';
            && (over <==> LoneSlash(if rooted then cp else "/" + cp))
            && (!over ==> Holds(a[..], m, a.Length - 1)
                          && a[..m] == if rooted then Canon([], cp) else Canon(st, "/" + cp))
  {
    if cp != "" && cp[0] == '/' {
      a, over, m := FromRoot(cp);
    } else {
      a, over, m := FromHere(cwd, cp, st);
    }
  }

  // cd / reads behind the buffer, cd /usr does not, and cd /usr// does not either.
  lemma OverrunExamples()
    ensures LoneSlash("/") && !LoneSlash("/usr") && LoneSlash("/usr/") && !LoneSlash("/usr//")
  {
    assert "/" + "" + "" == "/" && "/" + "usr" + "" == "/usr" && "/" + "usr" + "/" == "/usr/";
    assert "/" + "usr" + "//" == "/usr//" && "/" + "" + "/" == "//";
    assert Proper(["usr"]) && !Proper([""]) by { assert [""][0] == ""; }
    LoneStep("", "");
    LoneStep("usr", "");
    LoneStep("usr", "/");
    LoneStep("", "/");
    LoneStep("usr", "//");
  }

  // Only the root is one character long.
  lemma OneIsRoot(st: seq<string>)
    requires Names(st)
    ensures |Absolute(st)| == 1 <==> st == []
  {
    if st != [] { assert IsName(st[|st| - 1]); }
  }

  lemma {:induction false} RenderNoNul(st: seq<string>)
    requires Names(st)
    ensures NUL !in Render(st)
  {
    if st != [] {
      RenderNoNul(st[..|st| - 1]);
      assert IsName(st[|st| - 1]);
    }
  }

  lemma Laid(a: seq<char>, n: nat, st: seq<string>, rest: string)
    requires n + 1 == |a| && a[n] == NUL && Names(st) && IsRest(rest)
    requires a[..n] == Render(st) + rest
    ensures At(a, n, n, st, rest, |Render(st)|)
  {
    RenderNoNul(st);
    assert forall i :: 0 <= i < n ==> a[i] == a[..n][i];
  }
}

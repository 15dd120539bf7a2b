// What path canonicalisation means (bin/csh/dir.c: dcanon, with symbolic links ignored).
module PathSpec {
  import opened Shared

  // A file name: not empty, no slash, no NUL.
  predicate IsName(s: string) {
    s != "" && '/' !in s && '\0' !in s
  }

  predicate Names(st: seq<string>) {
    forall i :: 0 <= i < |st| ==> IsName(st[i])
  }

  // The text of a stack of names, "" for the empty one.
  function Render(st: seq<string>): string {
    if st == [] then "" else Render(st[..|st| - 1]) + "/" + st[|st| - 1]
  }

  // The end of the component that starts at i.
  function CompEnd(s: string, i: nat): (j: nat)
    requires i <= |s|
    ensures i <= j <= |s| && '/' !in s[i..j] && (j < |s| ==> s[j] == '/')
    decreases |s| - i
  {
    if i == |s| || s[i] == '/' then i
    else
      var j := CompEnd(s, i + 1);
      assert s[i..j] == [s[i]] + s[i + 1..j];
      j
  }

  predicate IsRest(rest: string) {
    (rest != "" ==> rest[0] == '/') && '\0' !in rest
  }

  // The components of a text that is empty or begins with a slash; empty ones included.
  function Split(rest: string): (cs: seq<string>)
    requires IsRest(rest)
    ensures (cs == []) == (rest == "")
  {
    if rest == "" then []
    else
      var j := CompEnd(rest, 1);
      [rest[1..j]] + Split(rest[j..])
  }

  function Push(st: seq<string>, c: string): seq<string> {
    if c == "" || c == "." then st
    else if c == ".." then if st == [] then [] else st[..|st| - 1]
    else st + [c]
  }

  function Fold(st: seq<string>, cs: seq<string>): seq<string>
    decreases |cs|
  {
    if cs == [] then st else Fold(Push(st, cs[0]), cs[1..])
  }

  // A final . right behind the root is kept.
  predicate Quirk(st: seq<string>, rest: string)
    requires IsRest(rest)
  {
    DotAtRoot(st, Split(rest))
  }

  predicate DotAtRoot(st: seq<string>, cs: seq<string>) {
    cs != [] && cs[|cs| - 1] == "." && Fold(st, cs[..|cs| - 1]) == []
  }

  function Absolute(st: seq<string>): string {
    if st == [] then "/" else Render(st)
  }

  // The canonical text of the names st followed by the text rest.
  function Canon(st: seq<string>, rest: string): string
    requires IsRest(rest)
  {
    if rest == "" then Render(st)
    else if Quirk(st, rest) then "/."
    else Absolute(Fold(st, Split(rest)))
  }

  // ----- one component -----

  lemma RestOf(rest: string, j: nat)
    requires IsRest(rest) && j <= |rest| && (j < |rest| ==> rest[j] == '/')
    ensures IsRest(rest[j..])
  {
  }

  lemma {:induction false} CompEndUnique(s: string, i: nat, j: nat)
    requires i <= j <= |s| && '/' !in s[i..j] && (j < |s| ==> s[j] == '/')
    ensures CompEnd(s, i) == j
    decreases |s| - i
  {
    if i < j {
      assert s[i] == s[i..j][0];
      assert s[i + 1..j] == s[i..j][1..];
      CompEndUnique(s, i + 1, j);
    }
  }

  lemma SplitStep(c: string, tail: string)
    requires '/' !in c && '\0' !in c && IsRest(tail)
    ensures IsRest("/" + c + tail) && Split("/" + c + tail) == [c] + Split(tail)
  {
    var s := "/" + c + tail;
    var j := 1 + |c|;
    assert s[1..j] == c && s[j..] == tail;
    CompEndUnique(s, 1, j);
  }

  // A component with more behind it is pushed.
  lemma CanonStep(st: seq<string>, c: string, tail: string)
    requires '/' !in c && '\0' !in c && IsRest(tail) && tail != ""
    ensures IsRest("/" + c + tail) && Canon(st, "/" + c + tail) == Canon(Push(st, c), tail)
  {
    SplitStep(c, tail);
    FoldStep(st, c, Split(tail));
    QuirkStep(st, c, Split(tail));
  }

  lemma FoldStep(st: seq<string>, c: string, cs: seq<string>)
    ensures Fold(st, [c] + cs) == Fold(Push(st, c), cs)
  {
    assert ([c] + cs)[1..] == cs;
  }

  lemma QuirkStep(st: seq<string>, c: string, cs: seq<string>)
    requires cs != []
    ensures DotAtRoot(st, [c] + cs) == DotAtRoot(Push(st, c), cs)
  {
    var all, front := [c] + cs, cs[..|cs| - 1];
    assert all[..|all| - 1] == [c] + front;
    FoldStep(st, c, front);
  }

  lemma CanonLast(st: seq<string>, c: string)
    requires '/' !in c && '\0' !in c
    ensures IsRest("/" + c)
    ensures Canon(st, "/" + c) == if c == "." && st == [] then "/." else Absolute(Push(st, c))
  {
    assert "/" + c + "" == "/" + c;
    SplitStep(c, "");
    assert [c][..0] == [] && [c][1..] == [];
    assert Fold(st, [c]) == Push(st, c);
  }

  // Slashes in a row are one slash.
  lemma CanonSlashes(st: seq<string>, tail: string)
    requires IsRest("/" + tail)
    requires tail != "" && tail[0] == '/'
    ensures IsRest(tail) && Canon(st, "/" + tail) == Canon(st, tail)
  {
    assert '\0' !in tail by { assert forall i :: 0 <= i < |tail| ==> tail[i] == ("/" + tail)[i + 1]; }
    assert "/" + "" + tail == "/" + tail;
    CanonStep(st, "", tail);
  }

  lemma {:induction false} CanonManySlashes(st: seq<string>, rest: string, k: nat)
    requires IsRest(rest) && 1 <= k <= |rest| && forall i :: 0 <= i < k ==> rest[i] == '/'
    ensures IsRest("/" + rest[k..]) && Canon(st, "/" + rest[k..]) == Canon(st, rest)
  {
    var more := rest[1..];
    assert "/" + more == rest;
    if k > 1 {
      assert more[k - 1..] == rest[k..] && more[0] == '/';
      CanonSlashes(st, more);
      CanonManySlashes(st, more, k - 1);
    }
  }

  // ----- the result -----

  predicate Proper(st: seq<string>) {
    Names(st) && forall i :: 0 <= i < |st| ==> st[i] != "." && st[i] != ".."
  }

  lemma {:induction false} SplitOfRender(st: seq<string>)
    requires Names(st)
    ensures IsRest(Render(st)) && Split(Render(st)) == st
  {
    RenderFront(st);
    if st != [] {
      SplitOfRender(st[1..]);
      SplitStep(st[0], Render(st[1..]));
    }
  }

  // Render, taken apart from the left.
  lemma {:induction false} RenderFront(st: seq<string>)
    ensures st != [] ==> Render(st) == "/" + st[0] + Render(st[1..])
  {
    if |st| == 1 {
      assert st[..0] == [];
      assert "" + "/" + st[0] == "/" + st[0] + "";
    } else if |st| > 1 {
      var front, tail := st[..|st| - 1], st[1..];
      RenderFront(front);
      assert tail[..|tail| - 1] == front[1..];
      RenderLast(st[0], Render(front[1..]), st[|st| - 1]);
    }
  }

  lemma RenderLast(first: string, mid: string, last: string)
    ensures "/" + first + mid + "/" + last == "/" + first + (mid + "/" + last)
  {
  }

  lemma {:induction false} FoldProper(st: seq<string>, cs: seq<string>)
    requires Proper(st) && forall i :: 0 <= i < |cs| ==> '/' !in cs[i] && '\0' !in cs[i]
    ensures Proper(Fold(st, cs))
    decreases |cs|
  {
    if cs != [] { FoldProper(Push(st, cs[0]), cs[1..]); }
  }

  lemma {:induction false} FoldOfProper(st: seq<string>, cs: seq<string>)
    requires Proper(cs)
    ensures Fold(st, cs) == st + cs
    decreases |cs|
  {
    if cs != [] {
      FoldOfProper(Push(st, cs[0]), cs[1..]);
      assert st + [cs[0]] + cs[1..] == st + cs;
    }
  }

  lemma {:induction false} SplitPieces(rest: string)
    requires IsRest(rest)
    ensures forall i :: 0 <= i < |Split(rest)| ==> '/' !in Split(rest)[i] && '\0' !in Split(rest)[i]
    decreases |rest|
  {
    if rest != "" {
      var j := CompEnd(rest, 1);
      RestOf(rest, j);
      SplitPieces(rest[j..]);
    }
  }

  // Canonicalising is idempotent, and the result is made of proper names, the kept /.
  // apart.
  lemma CanonIsFixed(st: seq<string>, rest: string)
    requires Proper(st) && IsRest(rest) && rest != ""
    ensures IsRest(Canon(st, rest)) && Canon([], Canon(st, rest)) == Canon(st, rest)
    ensures !Quirk(st, rest) ==> exists r :: Proper(r) && Canon(st, rest) == Absolute(r)
  {
    SplitPieces(rest);
    FoldProper(st, Split(rest));
    var r := Fold(st, Split(rest));
    CanonLast([], ".");
    CanonLast([], "");
    assert "/" + "." == "/." && "/" + "" == "/";
    if !Quirk(st, rest) && r != [] {
      SplitOfRender(r);
      RenderFront(r);
      FoldOfProper([], r);
      assert [] + r == r;
    }
  }

  // The canonical text is the one wanted exactly when no final . lies behind the root.
  lemma ExactlyWhen(st: seq<string>, rest: string)
    requires Proper(st) && IsRest(rest) && rest != ""
    ensures Canon(st, rest) == Absolute(Fold(st, Split(rest))) <==> !Quirk(st, rest)
  {
    SplitPieces(rest);
    FoldProper(st, Split(rest));
    var r := Fold(st, Split(rest));
    if Quirk(st, rest) && r != [] {
      RenderFront(r);
      SplitOfRender(r);
      CanonLast([], ".");
      SplitStep(".", "");
      assert "/" + "." + "" == "/.";
    }
  }

  // ----- a lone slash at the end -----

  // Proper names with single slashes, and one slash behind the last.
  predicate LoneSlash(rest: string)
    requires IsRest(rest)
  {
    OneEmptyLast(Split(rest))
  }

  predicate OneEmptyLast(cs: seq<string>) {
    cs != [] && cs[|cs| - 1] == "" && Proper(cs[..|cs| - 1])
  }

  lemma LoneStep(c: string, tail: string)
    requires '/' !in c && '\0' !in c && IsRest(tail)
    ensures IsRest("/" + c + tail)
    ensures LoneSlash("/" + c + tail) <==> if tail == "" then c == "" else Proper([c]) && LoneSlash(tail)
  {
    SplitStep(c, tail);
    OneEmptyStep(c, Split(tail));
  }

  lemma OneEmptyStep(c: string, cs: seq<string>)
    ensures OneEmptyLast([c] + cs) <==> if cs == [] then c == "" else Proper([c]) && OneEmptyLast(cs)
  {
    var all := [c] + cs;
    if cs != [] {
      assert all[..|all| - 1] == [c] + cs[..|cs| - 1] && all[|all| - 1] == cs[|cs| - 1];
      ProperCons(c, cs[..|cs| - 1]);
    }
  }

  lemma ProperCons(c: string, cs: seq<string>)
    ensures Proper([c] + cs) <==> Proper([c]) && Proper(cs)
  {
    var all := [c] + cs;
    assert all[0] == c && forall i :: 0 <= i < |cs| ==> all[i + 1] == cs[i];
  }

  lemma {:induction false} RenderOfSplit(rest: string)
    requires IsRest(rest)
    ensures Render(Split(rest)) == rest
    decreases |rest|
  {
    if rest != "" {
      var j := CompEnd(rest, 1);
      RestOf(rest, j);
      RenderOfSplit(rest[j..]);
      RenderCons(rest[1..j], Split(rest[j..]));
      assert rest == "/" + rest[1..j] + rest[j..];
    }
  }

  lemma RenderCons(c: string, cs: seq<string>)
    ensures Render([c] + cs) == "/" + c + Render(cs)
  {
    RenderFront([c] + cs);
    assert ([c] + cs)[1..] == cs;
  }

  lemma {:induction false} SplitWithSlash(names: seq<string>)
    requires Names(names)
    ensures IsRest(Render(names) + "/") && Split(Render(names) + "/") == names + [""]
  {
    RenderFront(names);
    if names == [] {
      SplitStep("", "");
      assert "/" + "" + "" == "" + "/";
    } else {
      SplitWithSlash(names[1..]);
      FrontWithSlash(names[0], Render(names[1..]), names[1..]);
      assert names + [""] == [names[0]] + (names[1..] + [""]);
    }
  }

  lemma FrontWithSlash(first: string, more: string, names: seq<string>)
    requires IsName(first) && IsRest(more + "/") && Split(more + "/") == names + [""]
    ensures IsRest("/" + first + more + "/") && Split("/" + first + more + "/") == [first] + (names + [""])
  {
    SplitStep(first, more + "/");
    assert "/" + first + more + "/" == "/" + first + (more + "/");
  }

  // These texts are the canonical ones with a slash behind them.
  lemma LoneSlashIs(rest: string)
    requires IsRest(rest)
    ensures LoneSlash(rest) <==> exists names :: Proper(names) && rest == Render(names) + "/"
  {
    var cs := Split(rest);
    RenderOfSplit(rest);
    if LoneSlash(rest) {
      var names := cs[..|cs| - 1];
      assert cs == names + [""];
      assert Render(names) + "/" + "" == Render(names) + "/";
    }
    if names :| Proper(names) && rest == Render(names) + "/" {
      SplitWithSlash(names);
      assert cs[..|cs| - 1] == names;
    }
  }

  // ----- components one by one -----

  // Empty and . components are dropped, .. drops the name in front, and a name is added.
  lemma ComponentsMean(st: seq<string>, name: string, tail: string)
    requires IsName(name) && name != "." && name != ".." && IsRest(tail) && tail != ""
    ensures IsRest("/" + tail) && IsRest("/." + tail) && IsRest("/.." + tail) && IsRest("/" + name + tail)
    ensures Canon(st, "/" + tail) == Canon(st, tail)
    ensures Canon(st, "/." + tail) == Canon(st, tail)
    ensures Canon(st, "/.." + tail) == Canon(if st == [] then [] else st[..|st| - 1], tail)
    ensures Canon(st, "/" + name + tail) == Canon(st + [name], tail)
  {
    assert "/" + "" + tail == "/" + tail && "/" + "." + tail == "/." + tail && "/" + ".." + tail == "/.." + tail;
    CanonStep(st, "", tail);
    CanonStep(st, ".", tail);
    CanonStep(st, "..", tail);
    CanonStep(st, name, tail);
  }

  // The last component: what is left is the names with a slash in front of each, or a slash.
  lemma LastMeans(st: seq<string>, name: string)
    requires IsName(name) && name != "." && name != ".."
    ensures Canon(st, "/" + name) == Render(st) + "/" + name
    ensures Canon(st, "/") == if st == [] then "/" else Render(st)
  {
    assert "/" + "" == "/";
    CanonLast(st, name);
    CanonLast(st, "");
    assert (st + [name])[..|st|] == st;
  }

  lemma LastDotDot(st: seq<string>)
    ensures Canon(st, "/" + "..") == if |st| <= 1 then "/" else Render(st[..|st| - 1])
  {
    CanonLast(st, "..");
  }

  lemma LastDot(st: seq<string>)
    ensures Canon(st, "/" + ".") == if st == [] then "/." else Render(st)
  {
    CanonLast(st, ".");
  }
}

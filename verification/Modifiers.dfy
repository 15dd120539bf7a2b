// Word modifiers (bin/csh/lex.c: domod) and their application to the words of a variable
// (bin/csh/dol.c: setDolp), the substitution :s left out.
module Modifiers {
  import opened Shared

  // A word, nothing to modify, or a search that leaves the word at its front: the test for
  // a slash drops quote bits, the search for it does not.
  datatype Mod = Word(w: string) | Nothing | Before

  predicate IsModifier(m: char) {
    m == 'h' || m == 't' || m == 'r' || m == 'e' || m == 'q' || m == 'x'
  }

  predicate AreModifiers(mods: string) {
    forall i :: 0 <= i < |mods| ==> IsModifier(mods[i])
  }

  predicate HasSlash(w: string) {
    exists i :: 0 <= i < |w| && Trim(w[i]) == '/'
  }

  // The place of the dot of an extension, in the last component.
  function DotAt(w: string, n: nat): (r: Option<nat>)
    requires n <= |w|
    ensures r.Some? ==> r.value < n && w[r.value] == '.' && '.' !in w[r.value + 1..n] && '/' !in w[r.value + 1..n]
  {
    if n == 0 || w[n - 1] == '/' then None
    else if w[n - 1] == '.' then
      assert w[n..n] == "";
      Some(n - 1)
    else
      var r := DotAt(w, n - 1);
      assert r.Some? ==> w[r.value + 1..n] == w[r.value + 1..n - 1] + [w[n - 1]];
      r
  }

  // Quoting: all characters, or all but blanks.
  function QuoteChar(c: char, all: bool): char {
    if all || (c != ' ' && c != '\t') then Quoted(c) else c
  }

  function QuoteWord(w: string, all: bool): (r: string)
    ensures |r| == |w| && forall i :: 0 <= i < |w| ==> r[i] == QuoteChar(w[i], all)
  {
    if w == "" then "" else [QuoteChar(w[0], all)] + QuoteWord(w[1..], all)
  }

  function DoMod(w: string, m: char): Mod {
    if m == 'q' || m == 'x' then Word(QuoteWord(w, m == 'q'))
    else if m == 'h' || m == 't' then
      if !HasSlash(w) then if m == 't' then Word(w) else Nothing
      else
        match LastIndex(w, '/')
        case None => Before
        case Some(p) => Word(if m == 'h' then w[..p] else w[p + 1..])
    else if m == 'e' || m == 'r' then
      match DotAt(w, |w|)
      case None => Word(if m == 'e' then "" else w)
      case Some(p) => Word(if m == 'e' then w[p + 1..] else w[..p])
    else Nothing
  }

  // ----- what the parts are -----

  // Only a word whose slashes are all quoted is searched past its front.
  lemma BeforeExactly(w: string, m: char)
    ensures DoMod(w, m) == Before <==> (m == 'h' || m == 't') && HasSlash(w) && '/' !in w
  {
  }

  // Head and tail are the word again, and the tail is its last component.
  lemma HeadAndTail(w: string)
    requires '/' in w
    ensures DoMod(w, 'h').Word? && DoMod(w, 't').Word?
    ensures w == DoMod(w, 'h').w + "/" + DoMod(w, 't').w && '/' !in DoMod(w, 't').w
  {
    var k :| 0 <= k < |w| && w[k] == '/';
    assert Trim(w[k]) == '/';
    var p := LastIndex(w, '/').value;
    assert w == w[..p] + [w[p]] + w[p + 1..];
  }

  // A word without a slash, quoted or not, is its own tail and has no head.
  lemma NoSlash(w: string)
    requires forall i :: 0 <= i < |w| ==> Trim(w[i]) != '/'
    ensures DoMod(w, 'h') == Nothing && DoMod(w, 't') == Word(w)
  {
  }

  lemma DotParts(w: string, p: nat)
    requires DotAt(w, |w|) == Some(p)
    ensures DoMod(w, 'r') == Word(w[..p]) && DoMod(w, 'e') == Word(w[p + 1..])
  {
  }

  lemma DotApart(w: string, p: nat)
    requires DotAt(w, |w|) == Some(p)
    ensures '.' !in w[p + 1..] && '/' !in w[p + 1..]
  {
    assert w[p + 1..|w|] == w[p + 1..];
  }

  lemma TakenApart(w: string, p: nat)
    requires p < |w| && w[p] == '.'
    ensures w == w[..p] + "." + w[p + 1..]
  {
  }

  // Root and extension are the word again, the extension being what follows the last dot
  // of the last component.
  lemma RootAndExtension(w: string, p: nat)
    requires DotAt(w, |w|) == Some(p)
    ensures DoMod(w, 'r') == Word(w[..p]) && DoMod(w, 'e') == Word(w[p + 1..])
    ensures w == w[..p] + "." + w[p + 1..] && '.' !in w[p + 1..] && '/' !in w[p + 1..]
  {
    DotParts(w, p);
    DotApart(w, p);
    TakenApart(w, p);
  }

  // Without a dot in the last component the root is the word and the extension empty; any
  // dot then has a slash behind it.
  lemma NoExtension(w: string)
    requires DotAt(w, |w|) == None
    ensures DoMod(w, 'r') == Word(w) && DoMod(w, 'e') == Word("")
    ensures '.' in w ==> '/' in w && LastIndex(w, '.').value < LastIndex(w, '/').value
  {
    NoDotParts(w);
    DotBehind(w);
  }

  lemma NoDotParts(w: string)
    requires DotAt(w, |w|) == None
    ensures DoMod(w, 'r') == Word(w) && DoMod(w, 'e') == Word("")
  {
  }

  lemma DotBehind(w: string)
    requires DotAt(w, |w|) == None
    ensures '.' in w ==> '/' in w && LastIndex(w, '.').value < LastIndex(w, '/').value
  {
    assert w[..|w|] == w;
    if '.' in w { NoDot(w, |w|); }
  }

  lemma {:induction false} NoDot(w: string, n: nat)
    requires n <= |w| && DotAt(w, n) == None && '.' in w[..n]
    ensures '/' in w[..n] && LastIndex(w[..n], '.').value < LastIndex(w[..n], '/').value
  {
    assert w[..n][..n - 1] == w[..n - 1] && w[..n] == w[..n - 1] + [w[n - 1]];
    if w[n - 1] != '/' { NoDot(w, n - 1); }
  }

  // ----- repetition -----

  // How many characters are not quoted yet.
  function Unquoted(w: string, all: bool): (n: nat)
    ensures n <= |w|
  {
    if w == "" then 0 else (if QuoteChar(w[0], all) != w[0] then 1 else 0) + Unquoted(w[1..], all)
  }

  function Weight(w: string, m: char): (n: nat)
    ensures n <= |w|
  {
    if m == 'q' || m == 'x' then Unquoted(w, m == 'q') else |w|
  }

  lemma {:induction false} QuotedOnce(w: string, all: bool)
    ensures QuoteWord(QuoteWord(w, all), all) == QuoteWord(w, all) && Unquoted(QuoteWord(w, all), all) == 0
    ensures Unquoted(w, all) == 0 ==> QuoteWord(w, all) == w
  {
    if w != "" { QuotedOnce(w[1..], all); }
  }

  // A modification that changes the word makes it lighter.
  lemma Lighter(w: string, m: char)
    requires IsModifier(m) && DoMod(w, m).Word? && DoMod(w, m).w != w
    ensures Weight(DoMod(w, m).w, m) < Weight(w, m)
  {
    if m == 'q' || m == 'x' { QuotedOnce(w, m == 'q'); }
  }

  // The modifier applied once, or with :a until the word stays the same or cannot be
  // modified; None when it could not be applied at all.
  datatype Applied = Applied(w: string, did: bool, before: bool)

  function Apply(w: string, m: char, all: bool): Applied
    requires IsModifier(m)
    decreases Weight(w, m)
  {
    match DoMod(w, m)
    case Nothing => Applied(w, false, false)
    case Before => Applied(w, false, true)
    case Word(next) =>
      if next == w || !all then Applied(next, true, false)
      else
        Lighter(w, m);
        var more := Apply(next, m, all);
        Applied(more.w, true, more.before)
  }

  // With :a the result is settled: modified again it is the same, or it cannot be.
  lemma {:induction false} ApplySettles(w: string, m: char)
    requires IsModifier(m) && !Apply(w, m, true).before
    ensures DoMod(Apply(w, m, true).w, m) == Word(Apply(w, m, true).w) || DoMod(Apply(w, m, true).w, m) == Nothing
    decreases Weight(w, m)
  {
    var next := DoMod(w, m);
    if next.Word? && next.w != w {
      Lighter(w, m);
      ApplySettles(next.w, m);
    }
  }

  // Nothing is left of a word by :ae.
  lemma {:induction false} AllExtensions(w: string)
    ensures Apply(w, 'e', true) == Applied("", true, false)
    decreases |w|
  {
    var next := DoMod(w, 'e').w;
    if next != w { AllExtensions(next); }
  }

  // :ah takes everything from the first slash on, in a word without quoted slashes.
  lemma {:induction false} AllHeads(w: string)
    requires forall i :: 0 <= i < |w| ==> (Trim(w[i]) == '/' ==> w[i] == '/')
    ensures var r := Apply(w, 'h', true);
            '/' !in r.w && r.w <= w && !r.before && (r.did <==> '/' in w) && (|r.w| < |w| ==> w[|r.w|] == '/')
    decreases |w|
  {
    if '/' in w {
      var k :| 0 <= k < |w| && w[k] == '/';
      assert Trim(w[k]) == '/';
      var p := LastIndex(w, '/').value;
      AllHeads(w[..p]);
    }
  }

  // ----- the loops -----

  method Slash(cp: string) returns (b: bool)
    ensures b <==> HasSlash(cp)
  {
    var i := 0;
    while i < |cp|
      invariant i <= |cp| && forall k :: 0 <= k < i ==> Trim(cp[k]) != '/'
    {
      if Trim(cp[i]) == '/' {
        return true;
      }
      i := i + 1;
    }
    b := false;
  }

  // Back from the end to the last slash; none when the front is reached.
  method LastSlash(cp: string) returns (r: Option<nat>)
    ensures r == LastIndex(cp, '/')
  {
    var wp := |cp|;
    while wp > 0
      invariant 0 <= wp <= |cp| && LastIndex(cp, '/') == LastIndex(cp[..wp], '/')
    {
      assert cp[..wp][..wp - 1] == cp[..wp - 1];
      wp := wp - 1;
      if cp[wp] == '/' {
        return Some(wp);
      }
    }
    r := None;
  }

  method LastDot(cp: string) returns (r: Option<nat>)
    ensures r == DotAt(cp, |cp|)
  {
    var wp: int := |cp| - 1;
    while wp >= 0 && cp[wp] != '/'
      invariant -1 <= wp < |cp| && DotAt(cp, |cp|) == DotAt(cp, wp + 1)
    {
      if cp[wp] == '.' {
        return Some(wp);
      }
      wp := wp - 1;
    }
    r := None;
  }

  method QuoteAll(cp: string, all: bool) returns (wp: string)
    ensures wp == QuoteWord(cp, all)
  {
    wp := "";
    while |wp| < |cp|
      invariant |wp| <= |cp| && forall k :: 0 <= k < |wp| ==> wp[k] == QuoteChar(cp[k], all)
      decreases |cp| - |wp|
    {
      var c := cp[|wp|];
      wp := wp + [if (c != ' ' && c != '\t') || all then Quoted(c) else c];
    }
  }

  method DoModify(cp: string, m: char) returns (r: Mod)
    ensures r == DoMod(cp, m)
  {
    if m == 'x' || m == 'q' {
      var wp := QuoteAll(cp, m == 'q');
      r := Word(wp);
    } else if m == 'h' || m == 't' {
      var slash := Slash(cp);
      if !slash {
        return if m == 't' then Word(cp) else Nothing;
      }
      var wp := LastSlash(cp);
      match wp {
        case None => r := Before;
        case Some(p) => r := Word(if m == 'h' then cp[..p] else cp[p + 1..]);
      }
    } else if m == 'e' || m == 'r' {
      var wp := LastDot(cp);
      match wp {
        case None => r := Word(if m == 'e' then "" else cp);
        case Some(p) => r := Word(if m == 'e' then cp[p + 1..] else cp[..p]);
      }
    } else {
      r := Nothing;
    }
  }

  // The inner loop of setDolp: it ends after at most one round more than the word has
  // characters.
  method ModifyWord(word: string, m: char, all: bool) returns (r: Applied, ghost rounds: nat)
    requires IsModifier(m)
    ensures r == Apply(word, m, all) && rounds <= |word| + 1
  {
    var cp, did := word, false;
    rounds := 0;
    while true
      invariant Apply(word, m, all) == (var a := Apply(cp, m, all); Applied(a.w, a.did || did, a.before))
      invariant rounds + Weight(cp, m) <= |word| && (did ==> all)
      decreases Weight(cp, m)
    {
      var dp := DoModify(cp, m);
      rounds := rounds + 1;
      match dp {
        case Nothing => return Applied(cp, did, false), rounds;
        case Before => return Applied(cp, did, true), rounds;
        case Word(next) =>
          did := true;
          if cp == next || !all {
            return Applied(next, true, false), rounds;
          }
          Lighter(cp, m);
          cp := next;
      }
    }
  }

  // ----- the words of a variable -----

  // A word under several modifiers, and the count of words still to be modified: every
  // modifier applied takes one off, the first that cannot be applied is the last.
  datatype Counted = Counted(w: string, count: int)

  function ApplyAll(w: string, mods: string, all: bool, count: int): Counted
    requires AreModifiers(mods)
    decreases |mods|
  {
    if mods == "" then Counted(w, count)
    else
      var a := Apply(w, mods[0], all);
      if a.did then ApplyAll(a.w, mods[1..], all, count - 1) else Counted(a.w, count)
  }

  // setDolp: with no modifiers, or a count that is used up, the word stays as it is.
  function SetDolp(w: string, mods: string, all: bool, count: int): Counted
    requires AreModifiers(mods)
  {
    if mods == "" || count == 0 then Counted(w, count) else ApplyAll(w, mods, all, count)
  }

  method ModifyAll(word: string, mods: string, all: bool, count: int) returns (r: Counted)
    requires AreModifiers(mods)
    ensures r == SetDolp(word, mods, all, count)
  {
    if mods == "" || count == 0 {
      return Counted(word, count);
    }
    var cp, dolmcnt, i := word, count, 0;
    while i < |mods|
      invariant i <= |mods| && ApplyAll(word, mods, all, count) == ApplyAll(cp, mods[i..], all, dolmcnt)
    {
      assert mods[i..][1..] == mods[i + 1..];
      var a, _ := ModifyWord(cp, mods[i], all);
      cp := a.w;
      if !a.did {
        return Counted(cp, dolmcnt);
      }
      dolmcnt := dolmcnt - 1;
      i := i + 1;
    }
    r := Counted(cp, dolmcnt);
  }

  function Words(ws: seq<string>, mods: string, all: bool, count: int): seq<string>
    requires AreModifiers(mods)
    decreases |ws|
  {
    if ws == [] then []
    else
      var c := SetDolp(ws[0], mods, all, count);
      [c.w] + Words(ws[1..], mods, all, c.count)
  }

  // How many modifiers are applied to a word.
  function Hits(w: string, mods: string, all: bool): nat
    requires AreModifiers(mods)
    decreases |mods|
  {
    if mods == "" then 0
    else
      var a := Apply(w, mods[0], all);
      if a.did then 1 + Hits(a.w, mods[1..], all) else 0
  }

  // A word under all modifiers, whatever the count.
  function Modified(w: string, mods: string, all: bool): string
    requires AreModifiers(mods)
  {
    ApplyAll(w, mods, all, 0).w
  }

  // How many are applied to the words in front of word k.
  function HitsBefore(ws: seq<string>, mods: string, all: bool, k: nat): nat
    requires k <= |ws| && AreModifiers(mods)
    decreases k
  {
    if k == 0 then 0 else Hits(ws[0], mods, all) + HitsBefore(ws[1..], mods, all, k - 1)
  }

  lemma {:induction false} CountFalls(w: string, mods: string, all: bool, count: int)
    requires AreModifiers(mods)
    ensures ApplyAll(w, mods, all, count) == Counted(Modified(w, mods, all), count - Hits(w, mods, all))
    ensures Hits(w, mods, all) == 0 ==> Modified(w, mods, all) == w
    decreases |mods|
  {
    if mods != "" {
      var a := Apply(w, mods[0], all);
      if a.did {
        CountFalls(a.w, mods[1..], all, count - 1);
        CountFalls(a.w, mods[1..], all, -1);
      }
    }
  }

  // The count has been used up exactly by some of the words in front of word k.
  ghost predicate Stopped(ws: seq<string>, mods: string, all: bool, count: int, k: nat)
    requires k <= |ws| && AreModifiers(mods)
  {
    exists j :: 0 <= j <= k && HitsBefore(ws, mods, all, j) == count
  }

  lemma StoppedLater(ws: seq<string>, mods: string, all: bool, count: int, k: nat)
    requires 0 < k <= |ws| && AreModifiers(mods)
    ensures Stopped(ws, mods, all, count, k) <==>
            count == 0 || Stopped(ws[1..], mods, all, count - Hits(ws[0], mods, all), k - 1)
  {
    var rest, left := ws[1..], count - Hits(ws[0], mods, all);
    assert forall j :: 0 < j <= k ==>
        HitsBefore(ws, mods, all, j) == Hits(ws[0], mods, all) + HitsBefore(rest, mods, all, j - 1);
    if Stopped(rest, mods, all, left, k - 1) {
      var j :| 0 <= j <= k - 1 && HitsBefore(rest, mods, all, j) == left;
      assert HitsBefore(ws, mods, all, j + 1) == count;
    }
    assert HitsBefore(ws, mods, all, 0) == 0;
  }

  // A word stays as it is exactly when the modifiers applied to some of the words in front
  // have used the count up; when they pass over it, all words are modified.
  lemma {:induction false} EachWord(ws: seq<string>, mods: string, all: bool, count: int, k: nat)
    requires k < |ws| && AreModifiers(mods)
    ensures |Words(ws, mods, all, count)| == |ws|
    ensures Words(ws, mods, all, count)[k] ==
            if Stopped(ws, mods, all, count, k) then ws[k] else Modified(ws[k], mods, all)
    decreases |ws|
  {
    var c := SetDolp(ws[0], mods, all, count);
    CountFalls(ws[0], mods, all, count);
    assert HitsBefore(ws, mods, all, 0) == 0;
    if count == 0 {
      UsedUp(ws, mods, all);
    } else if k > 0 {
      assert c.count == count - Hits(ws[0], mods, all);
      EachWord(ws[1..], mods, all, c.count, k - 1);
      StoppedLater(ws, mods, all, count, k);
    } else if |ws| > 1 {
      EachWord(ws[1..], mods, all, c.count, 0);
    }
  }

  lemma {:induction false} UsedUp(ws: seq<string>, mods: string, all: bool)
    requires AreModifiers(mods)
    ensures Words(ws, mods, all, 0) == ws
    decreases |ws|
  {
    if ws != [] { UsedUp(ws[1..], mods, all); }
  }

  lemma {:induction false} HitsSum(ws: seq<string>, mods: string, all: bool, f: nat, j: nat)
    requires f < |ws| && j <= |ws| && AreModifiers(mods)
    requires forall i :: 0 <= i < f ==> Hits(ws[i], mods, all) == 0
    ensures j <= f ==> HitsBefore(ws, mods, all, j) == 0
    ensures j == f + 1 ==> HitsBefore(ws, mods, all, j) == Hits(ws[f], mods, all)
    ensures j > f ==> HitsBefore(ws, mods, all, j) >= Hits(ws[f], mods, all)
    decreases j
  {
    if j > 0 && f > 0 {
      HitsSum(ws[1..], mods, all, f - 1, j - 1);
    }
  }

  lemma StoppedBehind(ws: seq<string>, mods: string, all: bool, f: nat, k: nat)
    requires f < |ws| && k <= |ws| && AreModifiers(mods)
    requires Hits(ws[f], mods, all) > 0 && forall i :: 0 <= i < f ==> Hits(ws[i], mods, all) == 0
    ensures Stopped(ws, mods, all, 1, k) <==> k > f && Hits(ws[f], mods, all) == 1
  {
    HitsSum(ws, mods, all, f, f + 1);
    if Stopped(ws, mods, all, 1, k) {
      var j :| 0 <= j <= k && HitsBefore(ws, mods, all, j) == 1;
      HitsSum(ws, mods, all, f, j);
    }
  }

  // Without :g the words in front of the first that can be modified stay, that one is
  // modified, and those behind it stay when one modifier applied to it; when more did, all
  // of them are modified.
  lemma FirstWordOnly(ws: seq<string>, mods: string, all: bool, f: nat, k: nat)
    requires f < |ws| && k < |ws| && AreModifiers(mods)
    requires Hits(ws[f], mods, all) > 0 && forall i :: 0 <= i < f ==> Hits(ws[i], mods, all) == 0
    ensures |Words(ws, mods, all, 1)| == |ws|
    ensures Words(ws, mods, all, 1)[k] ==
            if k < f || (k > f && Hits(ws[f], mods, all) == 1) then ws[k] else Modified(ws[k], mods, all)
  {
    StoppedBehind(ws, mods, all, f, k);
    EachWord(ws, mods, all, 1, k);
    CountFalls(ws[k], mods, all, 0);
  }

  // ----- two modifiers always reach a word behind -----

  // A word that modifiers have changed for good: shorter, or quoted at its front.
  predicate Changed(w: string, size: nat) {
    |w| < size || (|w| == size && size > 0 && IsQuoted(w[0]))
  }

  lemma ChangedByOne(w: string, m: char, size: nat)
    requires IsModifier(m) && Changed(w, size) && DoMod(w, m).Word?
    ensures Changed(DoMod(w, m).w, size)
  {
  }

  lemma {:induction false} ChangedStays(w: string, m: char, all: bool, size: nat)
    requires IsModifier(m) && Changed(w, size)
    ensures Changed(Apply(w, m, all).w, size)
    decreases Weight(w, m)
  {
    var next := DoMod(w, m);
    if next.Word? {
      ChangedByOne(w, m, size);
      if next.w != w && all {
        Lighter(w, m);
        ChangedStays(next.w, m, all, size);
      }
    }
  }

  lemma {:induction false} ChangedByAll(w: string, mods: string, all: bool, size: nat)
    requires Changed(w, size) && AreModifiers(mods)
    ensures Changed(Modified(w, mods, all), size)
    decreases |mods|
  {
    if mods != "" {
      ChangedStays(w, mods[0], all, size);
      CountFalls(Apply(w, mods[0], all).w, mods[1..], all, -1);
      ChangedByAll(Apply(w, mods[0], all).w, mods[1..], all, size);
    }
  }

  // Every modifier changes this word.
  const PROBE := "a/b.c"

  lemma ProbeChanged(m: char)
    requires IsModifier(m)
    ensures DoMod(PROBE, m).Word? && Changed(DoMod(PROBE, m).w, |PROBE|)
  {
    assert Trim(PROBE[1]) == '/' && PROBE[1] == '/';
    assert DotAt(PROBE, 4) == Some(3);
  }

  lemma ProbeModified(mods: string, all: bool)
    requires mods != "" && AreModifiers(mods)
    ensures Modified(PROBE, mods, all) != PROBE
  {
    var m := mods[0];
    ProbeChanged(m);
    var next := DoMod(PROBE, m).w;
    assert !IsQuoted(PROBE[0]);
    if next != PROBE && all {
      Lighter(PROBE, m);
      ChangedStays(next, m, all, |PROBE|);
    }
    var a := Apply(PROBE, m, all);
    assert a.did && Changed(a.w, |PROBE|);
    CountFalls(a.w, mods[1..], all, -1);
    ChangedByAll(a.w, mods[1..], all, |PROBE|);
  }

  // So without :g just the first word is modified, whatever the words behind it, exactly
  // when one modifier applies to it.
  lemma JustTheFirst(w: string, mods: string, all: bool)
    requires AreModifiers(mods) && Hits(w, mods, all) > 0
    ensures (forall rest: seq<string> {:trigger [w] + rest} ::
               Words([w] + rest, mods, all, 1) == [Modified(w, mods, all)] + rest)
            <==> Hits(w, mods, all) == 1
  {
    if Hits(w, mods, all) == 1 {
      forall rest: seq<string>
        ensures Words([w] + rest, mods, all, 1) == [Modified(w, mods, all)] + rest
      {
        OneKeepsRest(w, rest, mods, all);
      }
    } else {
      FirstWordOnly([w] + [PROBE], mods, all, 0, 1);
      ProbeModified(mods, all);
      assert ([Modified(w, mods, all)] + [PROBE])[1] == PROBE;
    }
  }

  lemma OneKeepsRest(w: string, rest: seq<string>, mods: string, all: bool)
    requires AreModifiers(mods) && Hits(w, mods, all) == 1
    ensures Words([w] + rest, mods, all, 1) == [Modified(w, mods, all)] + rest
  {
    var ws := [w] + rest;
    FirstWordOnly(ws, mods, all, 0, 0);
    forall k | 0 <= k < |ws| ensures Words(ws, mods, all, 1)[k] == ([Modified(w, mods, all)] + rest)[k] {
      FirstWordOnly(ws, mods, all, 0, k);
    }
  }

  // One and two of the same modifier on two words.
  lemma TwoModifiersAllWords()
    ensures Words(["a.c", "b.c"], "r", false, 1) == ["a", "b.c"]
    ensures Words(["a.c", "b.c"], "rr", false, 1) == ["a", "b"]
  {
    Rooted("a.c", "a", 'a');
    Rooted("b.c", "b", 'b');
    assert "rr"[1..] == "r" && "r"[1..] == "";
    assert ["a.c", "b.c"][1..] == ["b.c"] && ["b.c"][1..] == [];
    RootsTwice("a.c", "a", 1);
    RootsTwice("b.c", "b", -1);
    assert Words(["b.c"], "rr", false, -1) == ["b"];
    OneKeepsRest("a.c", ["b.c"], "r", false);
    assert ["a.c"] + ["b.c"] == ["a.c", "b.c"];
  }

  lemma RootsTwice(w: string, root: string, count: int)
    requires DoMod(w, 'r') == Word(root) && DoMod(root, 'r') == Word(root)
    ensures ApplyAll(w, "rr", false, count) == Counted(root, count - 2)
    ensures Hits(w, "r", false) == 1 && Modified(w, "r", false) == root
  {
    assert "rr"[1..] == "r" && "r"[1..] == "";
    assert ApplyAll(root, "", false, count - 2) == Counted(root, count - 2);
    assert ApplyAll(root, "r", false, count - 1) == Counted(root, count - 2);
    assert Hits(root, "", false) == 0;
    assert ApplyAll(root, "", false, -1) == Counted(root, -1);
  }

  lemma Rooted(w: string, root: string, c: char)
    requires w == [c] + ".c" && root == [c] && c != '.' && c != '/'
    ensures DoMod(w, 'r') == Word(root) && DoMod(root, 'r') == Word(root)
  {
    assert DotAt(w, 2) == Some(1);
    assert w[..1] == root;
    assert DotAt(root, 0) == None;
  }

  // ----- what quoting does -----

  // :q marks every byte of the word as quoted; :x leaves blanks and tabs as they are.
  lemma QuotesMark(w: string, i: nat)
    requires i < |w|
    ensures var q, x := DoMod(w, 'q'), DoMod(w, 'x');
            && q.Word? && |q.w| == |w| && x.Word? && |x.w| == |w|
            && (w[i] as int < 0x100 ==> q.w[i] as int == w[i] as int + 0x8000)
            && (w[i] as int < 0x100 && w[i] != ' ' && w[i] != '\t' ==> x.w[i] as int == w[i] as int + 0x8000)
            && (w[i] == ' ' || w[i] == '\t' ==> x.w[i] == w[i])
            && (w[i] as int >= 0x8000 ==> q.w[i] == w[i] && x.w[i] == w[i])
  {
    var q, x := QuoteWord(w, true), QuoteWord(w, false);
    assert q[i] == QuoteChar(w[i], true) && x[i] == QuoteChar(w[i], false);
  }

  // The modifiers are applied from the first to the last that applies.
  lemma ModifiersInOrder(w: string, m: char, mods: string)
    requires AreModifiers(mods) && AreModifiers([m] + mods)
    ensures Modified(w, [m] + mods, false) ==
            match DoMod(w, m)
            case Word(next) => Modified(next, mods, false)
            case _ => w
  {
    assert ([m] + mods)[1..] == mods;
    var next := DoMod(w, m);
    if next.Word? {
      CountFalls(next.w, mods, false, -1);
      CountFalls(next.w, mods, false, 0);
    }
  }
}

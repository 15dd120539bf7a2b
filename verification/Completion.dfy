// File name completion (bin/csh/file.c: tsearch, recognize, is_prefix, is_suffix, ignored).
module Completion {
  import opened Shared

  predicate IsPrefix(p: string, s: string) {
    |p| <= |s| && s[..|p|] == p
  }

  predicate IsSuffix(s: string, t: string) {
    |t| <= |s| && s[|s| - |t|..] == t
  }

  // is_prefix, character by character.
  method PrefixTest(check: string, template: string) returns (b: bool)
    ensures b <==> IsPrefix(check, template)
  {
    var i := 0;
    while i < |check| && i < |template| && check[i] == template[i]
      invariant i <= |check| && i <= |template| && check[..i] == template[..i]
    {
      i := i + 1;
    }
    b := i == |check|;
    assert b ==> check[..i] == check;
    if !b && i < |template| { NoPrefix(check, template, i); }
  }

  lemma NoPrefix(p: string, s: string, i: nat)
    requires i < |p| && i < |s| && p[i] != s[i]
    ensures !IsPrefix(p, s)
  {
    if |p| <= |s| { assert s[..|p|][i] == s[i]; }
  }

  lemma NoSuffix(s: string, t: string, i: nat, j: nat)
    requires i < |s| && j < |t| && |s| - i == |t| - j && s[i] != t[j]
    ensures !IsSuffix(s, t)
  {
    if |t| <= |s| { assert s[|s| - |t|..][j] == s[i]; }
  }

  // is_suffix, from the ends back.
  method SuffixTest(check: string, template: string) returns (b: bool)
    ensures b <==> IsSuffix(check, template)
  {
    var c, t := |check|, |template|;
    while t != 0
      invariant 0 <= t <= |template| && 0 <= c <= |check| && |check| - c == |template| - t
      invariant check[c..] == template[t..]
    {
      if c == 0 {
        return false;
      }
      t := t - 1;
      c := c - 1;
      if template[t] != check[c] {
        NoSuffix(check, template, c, t);
        return false;
      }
      assert check[c..] == [check[c]] + check[c + 1..] && template[t..] == [template[t]] + template[t + 1..];
    }
    b := true;
  }

  predicate Ignored(entry: string, fignore: seq<string>) {
    exists k :: 0 <= k < |fignore| && IsSuffix(entry, fignore[k])
  }

  method IgnoredTest(entry: string, fignore: seq<string>) returns (b: bool)
    ensures b <==> Ignored(entry, fignore)
  {
    var i := 0;
    while i < |fignore|
      invariant i <= |fignore| && forall k :: 0 <= k < i ==> !IsSuffix(entry, fignore[k])
    {
      var s := SuffixTest(entry, fignore[i]);
      if s {
        return true;
      }
      i := i + 1;
    }
    b := false;
  }

  // ----- the longest common prefix -----

  function Common(a: string, b: string): (p: string)
    ensures IsPrefix(p, a) && IsPrefix(p, b)
  {
    if a == "" || b == "" || a[0] != b[0] then "" else [a[0]] + Common(a[1..], b[1..])
  }

  lemma {:induction false} CommonIsLongest(a: string, b: string, q: string)
    requires IsPrefix(q, a) && IsPrefix(q, b)
    ensures IsPrefix(q, Common(a, b))
  {
    if q != "" {
      assert q[0] == a[0] == b[0];
      assert a[..|q|][1..] == a[1..][..|q| - 1] && b[..|q|][1..] == b[1..][..|q| - 1];
      CommonIsLongest(a[1..], b[1..], q[1..]);
      assert q == [q[0]] + q[1..];
    }
  }

  function CommonAll(s: seq<string>): string
    requires s != []
  {
    if |s| == 1 then s[0] else Common(CommonAll(s[..|s| - 1]), s[|s| - 1])
  }

  lemma {:induction false} CommonAllIsLongest(s: seq<string>)
    requires s != []
    ensures forall k :: 0 <= k < |s| ==> IsPrefix(CommonAll(s), s[k])
    ensures forall q :: (forall k :: 0 <= k < |s| ==> IsPrefix(q, s[k])) ==> IsPrefix(q, CommonAll(s))
  {
    if |s| > 1 {
      var front := s[..|s| - 1];
      CommonAllIsLongest(front);
      forall k | 0 <= k < |s| ensures IsPrefix(CommonAll(s), s[k]) {
        if k < |s| - 1 {
          assert s[k] == front[k];
          PrefixTransitive(CommonAll(s), CommonAll(front), s[k]);
        }
      }
      forall q | forall k :: 0 <= k < |s| ==> IsPrefix(q, s[k]) ensures IsPrefix(q, CommonAll(s)) {
        assert forall k :: 0 <= k < |front| ==> front[k] == s[k];
        CommonIsLongest(CommonAll(front), s[|s| - 1], q);
      }
    }
  }

  lemma PrefixTransitive(p: string, q: string, r: string)
    requires IsPrefix(p, q) && IsPrefix(q, r)
    ensures IsPrefix(p, r)
  {
    assert r[..|p|] == r[..|q|][..|p|];
  }

  // ----- scanning a directory -----

  // Entries that complete the name; those with a dot in front only when it is typed.
  predicate Completes(name: string, entry: string, lognames: bool) {
    IsPrefix(name, entry) && (name != "" || First(entry) != '.' || lognames)
  }

  function Matching(name: string, entries: seq<string>, lognames: bool): (r: seq<string>)
    ensures forall k :: 0 <= k < |r| ==> IsPrefix(name, r[k])
  {
    if entries == [] then []
    else
      var front := Matching(name, entries[..|entries| - 1], lognames);
      if Completes(name, entries[|entries| - 1], lognames) then front + [entries[|entries| - 1]] else front
  }

  // Of these, the ones that do not end as fignore says.
  function Kept(words: seq<string>, fignore: seq<string>): seq<string> {
    if words == [] then []
    else
      var front := Kept(words[..|words| - 1], fignore);
      if Ignored(words[|words| - 1], fignore) then front else front + [words[|words| - 1]]
  }

  // What a scan looks at.
  function Seen(name: string, entries: seq<string>, lognames: bool, fignore: seq<string>, ignoring: bool): seq<string> {
    if ignoring then Kept(Matching(name, entries, lognames), fignore) else Matching(name, entries, lognames)
  }

  lemma {:induction false} KeptPrefix(name: string, words: seq<string>, fignore: seq<string>)
    requires forall k :: 0 <= k < |words| ==> IsPrefix(name, words[k])
    ensures forall k :: 0 <= k < |Kept(words, fignore)| ==> IsPrefix(name, Kept(words, fignore)[k])
  {
    if words != [] { KeptPrefix(name, words[..|words| - 1], fignore); }
  }

  // The entries the completion is made from: those not ignored, or all when there are no
  // others.
  function Chosen(name: string, entries: seq<string>, lognames: bool, fignore: seq<string>): seq<string> {
    var kept := Seen(name, entries, lognames, fignore, true);
    if kept == [] then Seen(name, entries, lognames, fignore, false) else kept
  }

  // One entry more.
  lemma SeenStep(name: string, entries: seq<string>, lognames: bool, fignore: seq<string>, ignoring: bool, i: nat)
    requires i < |entries|
    ensures Seen(name, entries[..i + 1], lognames, fignore, ignoring)
         == Seen(name, entries[..i], lognames, fignore, ignoring)
            + (if Completes(name, entries[i], lognames) && !(ignoring && Ignored(entries[i], fignore))
               then [entries[i]] else [])
    ensures Matching(name, entries[..i + 1], lognames)
         == Matching(name, entries[..i], lognames)
            + (if Completes(name, entries[i], lognames) then [entries[i]] else [])
  {
    assert entries[..i + 1][..i] == entries[..i];
    var m := Matching(name, entries[..i], lognames);
    if Completes(name, entries[i], lognames) { assert (m + [entries[i]])[..|m|] == m; }
  }

  // Seen only grows.
  lemma {:induction false} SeenGrows(name: string, entries: seq<string>, lognames: bool, fignore: seq<string>,
          ignoring: bool, i: nat, j: nat)
    requires i <= j <= |entries|
    ensures Seen(name, entries[..i], lognames, fignore, ignoring)
         <= Seen(name, entries[..j], lognames, fignore, ignoring)
    decreases j
  {
    if i < j {
      SeenGrows(name, entries, lognames, fignore, ignoring, i, j - 1);
      SeenStep(name, entries, lognames, fignore, ignoring, j - 1);
    }
  }

  // A common prefix that has shrunk to the name itself stays what it is.
  lemma {:induction false} PrefixSettled(name: string, s: seq<string>, t: seq<string>)
    requires s != [] && s <= t && forall k :: 0 <= k < |t| ==> IsPrefix(name, t[k])
    requires |CommonAll(s)| == |name|
    ensures CommonAll(t) == CommonAll(s) == name
  {
    CommonAllIsLongest(s);
    CommonAllIsLongest(t);
    assert forall k :: 0 <= k < |s| ==> s[k] == t[k];
    assert IsPrefix(name, CommonAll(s)) && IsPrefix(name, CommonAll(t)) && IsPrefix(CommonAll(t), CommonAll(s));
  }

  const NUL := '\0'

  // The buffer holds the text t.
  ghost predicate Text(ext: seq<char>, t: string) {
    |t| < |ext| && ext[..|t|] == t && ext[|t|] == NUL && NUL !in t
  }

  // copyn, with room enough.
  method CopyN(ext: array<char>, entry: string)
    requires |entry| < ext.Length && NUL !in entry
    modifies ext
    ensures Text(ext[..], entry)
  {
    var i := 0;
    while i < |entry|
      invariant i <= |entry| && ext[..i] == entry[..i]
    {
      ext[i] := entry[i];
      i := i + 1;
      assert ext[..i] == ext[..i - 1] + [entry[i - 1]];
    }
    ext[i] := NUL;
    assert ext[..i] == entry;
  }

  // The text is cut at the first character that differs; true to stop, when that leaves
  // just the name.
  method Recognize(ext: array<char>, entry: string, nameLength: nat, numitems: nat, ghost t: string)
      returns (stop: bool)
    requires |entry| < ext.Length && NUL !in entry && (numitems == 1 || Text(ext[..], t))
    modifies ext
    ensures numitems == 1 ==> Text(ext[..], entry) && !stop
    ensures numitems != 1 ==> Text(ext[..], Common(t, entry)) && (stop <==> |Common(t, entry)| == nameLength)
  {
    if numitems == 1 {
      CopyN(ext, entry);
      stop := false;
    } else {
      var x := 0;
      ghost var before := ext[..];
      TextAt(before, t, 0);
      while ext[x] != NUL && x < |entry| && ext[x] == entry[x]
        invariant x <= |t| && x <= |entry| && t[..x] == entry[..x] && ext[..] == before
        decreases |t| - x
      {
        TextAt(before, t, x);
        x := x + 1;
      }
      TextAt(before, t, x);
      CommonEnds(t, entry, x);
      ext[x] := NUL;
      assert ext[..x] == before[..x] == t[..x];
      stop := x == nameLength;
    }
  }

  lemma TextAt(ext: seq<char>, t: string, x: nat)
    requires Text(ext, t) && x <= |t|
    ensures x < |ext| && ext[x] == if x < |t| then t[x] else NUL
    ensures x < |t| ==> t[x] != NUL
  {
    if x < |t| { assert ext[..|t|][x] == t[x]; }
  }

  lemma {:induction false} CommonEnds(a: string, b: string, x: nat)
    requires x <= |a| && x <= |b| && a[..x] == b[..x] && (x == |a| || x == |b| || a[x] != b[x])
    ensures Common(a, b) == a[..x]
    decreases x
  {
    if x > 0 {
      assert a[0] == a[..x][0] == b[..x][0] == b[0];
      assert a[1..][..x - 1] == a[..x][1..] && b[1..][..x - 1] == b[..x][1..];
      CommonEnds(a[1..], b[1..], x - 1);
      assert a[..x] == [a[0]] + a[1..][..x - 1];
    }
  }

  predicate Fits(entries: seq<string>, room: nat) {
    forall k :: 0 <= k < |entries| ==> |entries[k]| < room && NUL !in entries[k]
  }

  // One pass over the directory. It may stop early, and still the text is the longest
  // common prefix of everything the pass would have looked at.
  method Scan(ext: array<char>, name: string, entries: seq<string>, lognames: bool, fignore: seq<string>,
          ignoring: bool)
      returns (numitems: nat, nignored: nat)
    requires Fits(entries, ext.Length)
    modifies ext
    ensures var seen := Seen(name, entries, lognames, fignore, ignoring);
            && (numitems == 0 <==> seen == []) && (numitems == 1 <==> |seen| == 1)
            && (seen != [] ==> Text(ext[..], CommonAll(seen)))
    ensures numitems == 0 ==> (nignored > 0 <==> ignoring && Matching(name, entries, lognames) != [])
  {
    numitems, nignored := 0, 0;
    var i := 0;
    ghost var seen: seq<string> := [];
    while i < |entries|
      invariant i <= |entries| && seen == Seen(name, entries[..i], lognames, fignore, ignoring)
      invariant numitems == |seen| && (seen != [] ==> Text(ext[..], CommonAll(seen)))
      invariant numitems == 0 ==> (nignored > 0 <==> ignoring && Matching(name, entries[..i], lognames) != [])
    {
      var entry := entries[i];
      var use, ign := Usable(name, entry, lognames, fignore, ignoring);
      SeenStep(name, entries, lognames, fignore, ignoring, i);
      i := i + 1;
      if use {
        numitems := numitems + 1;
        var stop := Take(ext, entry, |name|, numitems, seen);
        seen := seen + [entry];
        if stop {
          StopEarly(name, entries, lognames, fignore, ignoring, i);
          return;
        }
      } else if ign {
        nignored := nignored + 1;
      }
    }
    assert entries[..i] == entries;
  }

  // One entry more for the common prefix.
  method Take(ext: array<char>, entry: string, nameLength: nat, numitems: nat, ghost seen: seq<string>)
      returns (stop: bool)
    requires |entry| < ext.Length && NUL !in entry && numitems == |seen| + 1
    requires seen != [] ==> Text(ext[..], CommonAll(seen))
    modifies ext
    ensures Text(ext[..], CommonAll(seen + [entry]))
    ensures stop ==> numitems > 1 && |CommonAll(seen + [entry])| == nameLength
  {
    stop := Recognize(ext, entry, nameLength, numitems, if seen == [] then "" else CommonAll(seen));
    CommonAllMore(seen, entry);
  }

  lemma CommonAllMore(seen: seq<string>, entry: string)
    ensures CommonAll(seen + [entry]) == if seen == [] then entry else Common(CommonAll(seen), entry)
  {
    assert (seen + [entry])[..|seen|] == seen;
  }

  // Whether an entry counts, or is ignored.
  method Usable(name: string, entry: string, lognames: bool, fignore: seq<string>, ignoring: bool)
      returns (use: bool, ign: bool)
    ensures use <==> Completes(name, entry, lognames) && !(ignoring && Ignored(entry, fignore))
    ensures ign <==> Completes(name, entry, lognames) && ignoring && Ignored(entry, fignore)
  {
    ign := false;
    use := PrefixTest(name, entry);
    if name == "" && First(entry) == '.' && !lognames {
      use := false;
    }
    if use && ignoring {
      ign := IgnoredTest(entry, fignore);
      use := !ign;
    }
  }

  lemma StopEarly(name: string, entries: seq<string>, lognames: bool, fignore: seq<string>, ignoring: bool, i: nat)
    requires i <= |entries| && |Seen(name, entries[..i], lognames, fignore, ignoring)| > 1
    requires |CommonAll(Seen(name, entries[..i], lognames, fignore, ignoring))| == |name|
    ensures var seen := Seen(name, entries, lognames, fignore, ignoring);
            |seen| > 1 && CommonAll(seen) == CommonAll(Seen(name, entries[..i], lognames, fignore, ignoring))
  {
    SeenGrows(name, entries, lognames, fignore, ignoring, i, |entries|);
    assert entries[..|entries|] == entries;
    KeptPrefix(name, Matching(name, entries, lognames), fignore);
    PrefixSettled(name, Seen(name, entries[..i], lognames, fignore, ignoring),
                  Seen(name, entries, lognames, fignore, ignoring));
  }

  // ----- the word -----

  // The directory with its slash, "" for none, and the name behind it.
  function DirOf(path: string): string {
    match LastIndex(path, '/') case Some(p) => path[..p + 1] case None => ""
  }

  function NameOf(path: string): string {
    match LastIndex(path, '/') case Some(p) => path[p + 1..] case None => path
  }

  predicate IsLogname(word: string) {
    First(word) == '~' && '/' !in word
  }

  function Front(word: string): string {
    if IsLogname(word) then "~" else DirOf(word)
  }

  function Typed(word: string): string {
    if IsLogname(word) then word[1..] else NameOf(word)
  }

  // The completed word and how many entries there are: none, one or several.
  method TSearch(ext: array<char>, word: string, entries: seq<string>, fignore: seq<string>)
      returns (new_: string, numitems: nat)
    requires Fits(entries, ext.Length)
    modifies ext
    ensures var chosen := Chosen(Typed(word), entries, IsLogname(word), fignore);
            && (numitems == 0 <==> chosen == []) && (numitems == 1 <==> |chosen| == 1)
            && new_ == if chosen == [] then word else Front(word) + CommonAll(chosen)
    ensures IsPrefix(word, new_)
  {
    var lognames := IsLogname(word);
    var name := Typed(word);
    var nignored;
    numitems, nignored := Scan(ext, name, entries, lognames, fignore, true);
    if numitems == 0 && nignored > 0 {
      numitems, nignored := Scan(ext, name, entries, lognames, fignore, false);
    }
    new_ := word;
    if numitems != 0 {
      var extended := ReadText(ext, CommonAll(Chosen(name, entries, lognames, fignore)));
      new_ := Front(word) + extended;
      Extends(word, entries, fignore);
    }
    assert word[..|word|] == word;
  }

  // The text in the buffer.
  method ReadText(ext: array<char>, ghost t: string) returns (s: string)
    requires Text(ext[..], t)
    ensures s == t
  {
    var len := 0;
    TextAt(ext[..], t, 0);
    while ext[len] != NUL
      invariant len <= |t| && ext[len] == (if len < |t| then t[len] else NUL)
      decreases |t| - len
    {
      len := len + 1;
      TextAt(ext[..], t, len);
    }
    TextAt(ext[..], t, len);
    s := ext[..len];
  }

  // Completion only adds to what has been typed.
  lemma Extends(word: string, entries: seq<string>, fignore: seq<string>)
    requires Chosen(Typed(word), entries, IsLogname(word), fignore) != []
    ensures IsPrefix(word, Front(word) + CommonAll(Chosen(Typed(word), entries, IsLogname(word), fignore)))
  {
    var name := Typed(word);
    var chosen := Chosen(name, entries, IsLogname(word), fignore);
    CommonAllIsLongest(chosen);
    KeptPrefix(name, Matching(name, entries, IsLogname(word)), fignore);
    assert IsPrefix(name, CommonAll(chosen));
    FrontAndTyped(word);
    PrefixBehind(Front(word), name, CommonAll(chosen));
  }

  lemma FrontAndTyped(word: string)
    ensures word == Front(word) + Typed(word)
  {
  }

  lemma PrefixBehind(front: string, p: string, s: string)
    requires IsPrefix(p, s)
    ensures IsPrefix(front + p, front + s)
  {
    assert (front + s)[..|front + p|] == front + s[..|p|];
  }

  // ----- what the completion is made from -----

  lemma {:induction false} MatchingCounts(name: string, entries: seq<string>, lognames: bool, e: string)
    ensures multiset(Matching(name, entries, lognames))[e] ==
            if name <= e && (name != "" || lognames || e == "" || e[0] != '.') then multiset(entries)[e] else 0
  {
    if entries != [] {
      var front, last := entries[..|entries| - 1], entries[|entries| - 1];
      assert entries == front + [last];
      MatchingCounts(name, front, lognames, e);
    }
  }

  lemma {:induction false} KeptCounts(words: seq<string>, fignore: seq<string>, e: string)
    ensures multiset(Kept(words, fignore))[e] == if Hidden(e, fignore) then 0 else multiset(words)[e]
  {
    if words != [] {
      var front, last := words[..|words| - 1], words[|words| - 1];
      assert words == front + [last];
      KeptCounts(front, fignore, e);
    }
  }

  // The entry ends with one of the suffixes of fignore.
  predicate Hidden(e: string, fignore: seq<string>) {
    exists k :: 0 <= k < |fignore| && |fignore[k]| <= |e| && e[|e| - |fignore[k]|..] == fignore[k]
  }

  // The word is a directory and the name typed: the ~ and a user's name, or what stands up
  // to and behind the last slash.
  predicate Parts(word: string, dir: string, name: string) {
    && word == dir + name
    && if word != "" && word[0] == '~' && '/' !in word then dir == "~"
       else '/' !in name && (dir == "" || dir[|dir| - 1] == '/')
  }

  lemma PartsAre(word: string, dir: string, name: string)
    ensures Parts(word, dir, name) <==> dir == Front(word) && name == Typed(word)
  {
    FrontAndTyped(word);
    if Parts(word, dir, name) {
      if IsLogname(word) { assert name == word[1..]; } else { TypedIs(word, dir, name); }
    }
  }

  lemma TypedIs(word: string, dir: string, name: string)
    requires word == dir + name && '/' !in name && (dir == "" || dir[|dir| - 1] == '/')
    ensures NameOf(word) == name && DirOf(word) == dir
  {
    if dir == "" {
      assert word == name;
    } else {
      var p := |dir| - 1;
      assert word[p] == '/' && word[p + 1..] == name && word[..p + 1] == dir;
      LastIs(word, p);
    }
  }

  lemma {:induction false} LastIs(word: string, p: nat)
    requires p < |word| && word[p] == '/' && '/' !in word[p + 1..]
    ensures LastIndex(word, '/') == Some(p)
  {
    if p < |word| - 1 {
      var front := word[..|word| - 1];
      assert word[|word| - 1] == word[p + 1..][|word| - p - 2];
      assert front[p + 1..] == word[p + 1..][..|word| - p - 2];
      LastIs(front, p);
    }
  }

  // An entry goes on from the name typed; one with a dot in front only when something is
  // typed, or for a user.
  predicate Continues(word: string, e: string) {
    Typed(word) <= e && (Typed(word) != "" || IsLogname(word) || e == "" || e[0] != '.')
  }

  // How often an entry is among those the completion is made from: as often as it is in the
  // directory, when it goes on from the word and is not hidden by its ending, or all are.
  lemma ChosenExactly(word: string, entries: seq<string>, fignore: seq<string>, e: string)
    ensures multiset(Chosen(Typed(word), entries, IsLogname(word), fignore))[e] ==
            if Continues(word, e)
               && (!Hidden(e, fignore) || forall d :: d in entries && Continues(word, d) ==> Hidden(d, fignore))
            then multiset(entries)[e] else 0
  {
    var name, logname := Typed(word), IsLogname(word);
    var matching := Matching(name, entries, logname);
    var kept := Kept(matching, fignore);
    MatchingCounts(name, entries, logname, e);
    KeptCounts(matching, fignore, e);
    if kept == [] {
      forall d | d in entries && Continues(word, d) ensures Hidden(d, fignore) {
        MatchingCounts(name, entries, logname, d);
        KeptCounts(matching, fignore, d);
      }
    } else {
      var d := kept[0];
      MatchingCounts(name, entries, logname, d);
      KeptCounts(matching, fignore, d);
      assert d in multiset(kept) && d in entries && Continues(word, d) && !Hidden(d, fignore);
    }
  }
}

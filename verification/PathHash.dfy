// The hash table of the command path (bin/csh/exec.c: hash, bit, bis, hashname, dohash,
// iscommand): a bit for every name in every directory, to pass over directories that
// cannot hold a command.
module PathHash {
  import opened Shared

  const HSHSIZ := 8192
  const HSHMUL := 243

  // Masking a number that is not negative with HSHSIZ - 1 is its remainder.
  function Hash(a: nat, b: nat): (h: nat)
    ensures h < HSHSIZ
  {
    (a * HSHMUL + b) % HSHSIZ
  }

  function NameHash(name: string): (h: nat)
    ensures h < HSHSIZ
  {
    if name == "" then 0 else Hash(NameHash(name[..|name| - 1]), name[|name| - 1] as nat)
  }

  method HashName(cp: string) returns (h: nat)
    ensures h == NameHash(cp)
  {
    h := 0;
    var i := 0;
    while i < |cp|
      invariant i <= |cp| && h == NameHash(cp[..i])
    {
      h := Hash(h, cp[i] as nat);
      i := i + 1;
      assert cp[..i][..i - 1] == cp[..i - 1];
    }
    assert cp[..i] == cp;
  }

  function Pow(n: nat): nat {
    if n == 0 then 1 else 243 * Pow(n - 1)
  }

  // A name as a number in base 243, its first character the heaviest.
  function Weight(name: string): nat {
    if name == "" then 0 else (name[0] as nat) * Pow(|name| - 1) + Weight(name[1..])
  }

  lemma {:induction false} WeightMore(name: string, c: char)
    ensures Weight(name + [c]) == Weight(name) * 243 + c as nat
  {
    if name == "" {
      assert Pow(0) == 1 && ("" + [c])[1..] == "";
    } else {
      WeightMore(name[1..], c);
      assert (name + [c])[1..] == name[1..] + [c];
      Distribute(name[0] as nat, Pow(|name| - 1), Weight(name[1..]));
    }
  }

  lemma Distribute(a: nat, p: nat, w: nat)
    ensures a * (243 * p) + w * 243 == (a * p + w) * 243
  {
  }

  // Reducing at every character is reducing the whole number once.
  lemma {:induction false} HashIsWeight(name: string)
    ensures NameHash(name) == Weight(name) % 8192
  {
    if name != "" {
      var front, c := name[..|name| - 1], name[|name| - 1];
      assert name == front + [c];
      HashIsWeight(front);
      WeightMore(front, c);
      Reduce(Weight(front), c as nat);
    }
  }

  lemma Reduce(w: nat, c: nat)
    ensures (w % 8192 * 243 + c) % 8192 == (w * 243 + c) % 8192
  {
    var q := w / 8192;
    assert w == 8192 * q + w % 8192;
    assert w * 243 + c == w % 8192 * 243 + c + 8192 * (243 * q);
    Multiple(w % 8192 * 243 + c, 243 * q);
  }

  lemma {:induction false} Multiple(a: nat, k: nat)
    ensures (a + 8192 * k) % 8192 == a % 8192
  {
    if k > 0 { Multiple(a, k - 1); }
  }

  // The bit of a name in the i-th directory.
  lemma BitIsWeight(name: string, i: nat)
    ensures Hash(NameHash(name), i) == (Weight(name) * 243 + i) % 8192
  {
    HashIsWeight(name);
    Reduce(Weight(name), i);
  }

  predicate IsDots(name: string) {
    name == "." || name == ".."
  }

  predicate IsAbsolute(dir: string) {
    First(dir) == '/'
  }

  // What opendir and readdir show of a directory.
  type Listing = string -> Option<seq<string>>

  // The bits of the first k names of the i-th directory.
  function DirBits(names: seq<string>, i: nat, k: nat): set<nat>
    requires k <= |names|
  {
    if k == 0 then {}
    else if IsDots(names[k - 1]) then DirBits(names, i, k - 1)
    else DirBits(names, i, k - 1) + {Hash(NameHash(names[k - 1]), i)}
  }

  // The bits of the first n directories of the path.
  function PathBits(path: seq<string>, list: Listing, n: nat): set<nat>
    requires n <= |path|
  {
    if n == 0 then {}
    else if IsAbsolute(path[n - 1]) && list(path[n - 1]).Some?
    then PathBits(path, list, n - 1) + DirBits(list(path[n - 1]).value, n - 1, |list(path[n - 1]).value|)
    else PathBits(path, list, n - 1)
  }

  // A bit is there exactly for the names in the directories.
  lemma {:induction false} DirBitsAre(names: seq<string>, i: nat, k: nat, b: nat)
    requires k <= |names|
    ensures b in DirBits(names, i, k) <==>
            exists j :: 0 <= j < k && !IsDots(names[j]) && b == Hash(NameHash(names[j]), i)
  {
    if k > 0 { DirBitsAre(names, i, k - 1, b); }
  }

  // A name listed in the i-th directory, which is absolute and readable, hashes to b.
  ghost predicate MarkedBy(path: seq<string>, list: Listing, i: nat, b: nat)
    requires i < |path|
  {
    && IsAbsolute(path[i]) && list(path[i]).Some?
    && var names := list(path[i]).value;
       exists j :: 0 <= j < |names| && !IsDots(names[j]) && b == Hash(NameHash(names[j]), i)
  }

  // Some of the first n directories marks b.
  ghost predicate Marked(path: seq<string>, list: Listing, n: nat, b: nat)
    requires n <= |path|
  {
    exists i :: 0 <= i < n && MarkedBy(path, list, i, b)
  }

  lemma MarkedLast(path: seq<string>, list: Listing, n: nat, b: nat)
    requires 0 < n <= |path|
    ensures Marked(path, list, n, b) <==> Marked(path, list, n - 1, b) || MarkedBy(path, list, n - 1, b)
  {
    if MarkedBy(path, list, n - 1, b) { assert Marked(path, list, n, b); }
  }

  lemma MarkedByBits(path: seq<string>, list: Listing, i: nat, b: nat)
    requires i < |path|
    ensures MarkedBy(path, list, i, b) <==>
            IsAbsolute(path[i]) && list(path[i]).Some?
            && b in DirBits(list(path[i]).value, i, |list(path[i]).value|)
  {
    if list(path[i]).Some? {
      var names := list(path[i]).value;
      DirBitsAre(names, i, |names|, b);
    }
  }

  // A bit is in the table exactly when some directory marks it.
  lemma {:induction false} PathBitsAre(path: seq<string>, list: Listing, n: nat, b: nat)
    requires n <= |path|
    ensures b in PathBits(path, list, n) <==> Marked(path, list, n, b)
  {
    if n > 0 {
      PathBitsAre(path, list, n - 1, b);
      MarkedLast(path, list, n, b);
      MarkedByBits(path, list, n - 1, b);
    }
  }

  // ----- the bits -----

  predicate Bit(h: seq<bv8>, b: nat)
    requires |h| == HSHSIZ / 8 && b < HSHSIZ
  {
    h[b / 8] & ((1 as bv8) << (b % 8)) != 0
  }

  lemma OrBit(x: bv8, i: nat, j: nat)
    requires i < 8 && j < 8
    ensures (x | ((1 as bv8) << i)) & ((1 as bv8) << j) != 0 <==> i == j || x & ((1 as bv8) << j) != 0
  {
  }

  // ----- searching the path -----

  // Whether a command can be run: executable, with "" for the name by itself.
  type Exec = (string, string) -> bool

  // A . or empty component stands for the name by itself.
  function Place(dir: string): string {
    if dir == "" || dir == "." then "" else dir
  }

  // The path searched: no component but the name itself when there is no path, or when the
  // name has a slash.
  function Vector(path: seq<string>, name: string): (pv: seq<string>)
    ensures pv != []
  {
    if path == [] || '/' in name then [""] else path
  }

  // One more than the index of the first directory with the command, 0 for none.
  function Linear(exec: Exec, pv: seq<string>, name: string, i: nat): nat
    requires i <= |pv|
    decreases |pv| - i
  {
    if i == |pv| then 0 else if exec(Place(pv[i]), name) then i + 1 else Linear(exec, pv, name, i + 1)
  }

  // The same, passing over the absolute directories whose bit is not there.
  function Hashed(exec: Exec, pv: seq<string>, name: string, bits: set<nat>, i: nat): nat
    requires i <= |pv|
    decreases |pv| - i
  {
    if i == |pv| then 0
    else if '/' !in name && IsAbsolute(pv[i]) && Hash(NameHash(name), i) !in bits
    then Hashed(exec, pv, name, bits, i + 1)
    else if exec(Place(pv[i]), name) then i + 1
    else Hashed(exec, pv, name, bits, i + 1)
  }

  lemma {:induction false} LinearStops(exec: Exec, pv: seq<string>, name: string, i: nat)
    requires i <= |pv|
    ensures var at := Linear(exec, pv, name, i); at == 0 || (i < at <= |pv| && exec(Place(pv[at - 1]), name))
    decreases |pv| - i
  {
    if i < |pv| { LinearStops(exec, pv, name, i + 1); }
  }

  // The plain search finds the first directory with the command: "" and . stand for the name
  // by itself, and so does everything when there is no path or the name has a slash.
  lemma {:induction false} LinearFirst(exec: Exec, pv: seq<string>, name: string, i: nat)
    requires i <= |pv|
    ensures var at := Linear(exec, pv, name, i);
            && at <= |pv| && (at == 0 || (i < at && Runs(exec, pv[at - 1], name)))
            && forall k :: i <= k < (if at == 0 then |pv| else at - 1) ==> !Runs(exec, pv[k], name)
    decreases |pv| - i
  {
    if i < |pv| { LinearFirst(exec, pv, name, i + 1); }
  }

  predicate Runs(exec: Exec, dir: string, name: string) {
    if dir == "" || dir == "." then exec("", name) else exec(dir, name)
  }

  lemma FindsFirst(exec: Exec, path: seq<string>, name: string)
    ensures var at := Linear(exec, Vector(path, name), name, 0);
            if path == [] || '/' in name then at == if exec("", name) then 1 else 0
            else
              && at <= |path| && (at > 0 ==> Runs(exec, path[at - 1], name))
              && forall k :: 0 <= k < (if at == 0 then |path| else at - 1) ==> !Runs(exec, path[k], name)
  {
    LinearFirst(exec, Vector(path, name), name, 0);
  }

  // The table finds what the plain search finds exactly when it does not pass over the
  // directory that the plain search stops at.
  lemma {:induction false} HashedExactly(exec: Exec, pv: seq<string>, name: string, bits: set<nat>, i: nat)
    requires i <= |pv|
    ensures var at := Linear(exec, pv, name, i);
            at <= |pv| &&
            (Hashed(exec, pv, name, bits, i) == at <==>
             at == 0 || '/' in name || !IsAbsolute(pv[at - 1]) || Hash(NameHash(name), at - 1) in bits)
    ensures Hashed(exec, pv, name, bits, i) == 0 || i < Hashed(exec, pv, name, bits, i)
    decreases |pv| - i
  {
    LinearStops(exec, pv, name, i);
    if i < |pv| { HashedExactly(exec, pv, name, bits, i + 1); }
  }

  // Every absolute directory that has the command shows it when it is listed.
  predicate Listed(exec: Exec, list: Listing, path: seq<string>, name: string) {
    forall i :: 0 <= i < |path| && IsAbsolute(path[i]) && exec(Place(path[i]), name) ==>
      list(path[i]).Some? && name in list(path[i]).value
  }

  // With the directories as they were when the table was made, no command is hidden.
  lemma NothingHidden(exec: Exec, list: Listing, path: seq<string>, name: string)
    requires Listed(exec, list, path, name) && !IsDots(name)
    ensures var pv := Vector(path, name);
            Hashed(exec, pv, name, PathBits(path, list, |path|), 0) == Linear(exec, pv, name, 0)
  {
    var pv, bits := Vector(path, name), PathBits(path, list, |path|);
    var at := Linear(exec, pv, name, 0);
    HashedExactly(exec, pv, name, bits, 0);
    LinearStops(exec, pv, name, 0);
    if at != 0 && '/' !in name && IsAbsolute(pv[at - 1]) {
      var names := list(path[at - 1]).value;
      var j :| 0 <= j < |names| && names[j] == name;
      assert MarkedBy(path, list, at - 1, Hash(NameHash(name), at - 1));
      PathBitsAre(path, list, |path|, Hash(NameHash(name), at - 1));
    }
  }

  // The table of a path finds what the plain search finds exactly when that is nothing, or
  // in no absolute directory, or a listed name of some readable absolute directory hashes
  // to the same bit.
  lemma TableExactly(exec: Exec, list: Listing, path: seq<string>, name: string)
    ensures var pv := Vector(path, name);
            var at := Linear(exec, pv, name, 0);
            at <= |pv| &&
            (Hashed(exec, pv, name, PathBits(path, list, |path|), 0) == at <==>
             at == 0 || '/' in name || !IsAbsolute(pv[at - 1])
             || Marked(path, list, |path|, Hash(NameHash(name), at - 1)))
  {
    var pv := Vector(path, name);
    var at := Linear(exec, pv, name, 0);
    HashedExactly(exec, pv, name, PathBits(path, list, |path|), 0);
    if at > 0 { PathBitsAre(path, list, |path|, Hash(NameHash(name), at - 1)); }
  }

  // Directories that can be searched but not listed hide all their commands.
  lemma UnreadableHides(exec: Exec, list: Listing, path: seq<string>, name: string)
    requires forall i :: 0 <= i < |path| && IsAbsolute(path[i]) ==> list(path[i]).None?
    ensures var pv := Vector(path, name);
            var at := Linear(exec, pv, name, 0);
            at <= |pv| &&
            (Hashed(exec, pv, name, PathBits(path, list, |path|), 0) == at <==>
             at == 0 || '/' in name || !IsAbsolute(pv[at - 1]))
  {
    TableExactly(exec, list, path, name);
  }

  // A command in /bin, which cannot be listed.
  lemma HiddenExample(name: string)
    requires '/' !in name
    ensures Linear((_, _) => true, ["/bin"], name, 0) == 1
    ensures Hashed((_, _) => true, ["/bin"], name, PathBits(["/bin"], _ => None, 1), 0) == 0
  {
    assert PathBits(["/bin"], _ => None, 0) == {};
  }

  class HashTable {
    const xhash: array<bv8>
    var havhash: bool

    constructor ()
      ensures xhash.Length == HSHSIZ / 8 && !havhash && fresh(xhash)
    {
      xhash := new bv8[HSHSIZ / 8];
      havhash := false;
    }

    ghost predicate Valid()
      reads this
    {
      xhash.Length == HSHSIZ / 8
    }

    // The bits that are set, and no others.
    ghost predicate Has(bits: set<nat>)
      reads this, xhash
      requires Valid()
    {
      forall b: nat :: b < HSHSIZ ==> (Bit(xhash[..], b) <==> b in bits)
    }

    method Bis(b: nat, ghost bits: set<nat>)
      requires Valid() && b < HSHSIZ && Has(bits)
      modifies xhash
      ensures Has(bits + {b})
    {
      ghost var before := xhash[..];
      xhash[b / 8] := xhash[b / 8] | ((1 as bv8) << (b % 8));
      forall c: nat | c < HSHSIZ ensures Bit(xhash[..], c) <==> c in bits + {b} {
        OrBit(before[b / 8], b % 8, c % 8);
      }
    }

    method Clear()
      requires Valid()
      modifies xhash
      ensures Has({})
    {
      var cnt := 0;
      while cnt < xhash.Length
        invariant cnt <= xhash.Length && forall k :: 0 <= k < cnt ==> xhash[k] == 0
      {
        xhash[cnt] := 0;
        cnt := cnt + 1;
      }
      assert forall b: nat :: b < HSHSIZ ==> !Bit(xhash[..], b);
    }

    method EnterDirectory(names: seq<string>, i: nat, ghost bits: set<nat>)
      requires Valid() && Has(bits)
      modifies xhash
      ensures Has(bits + DirBits(names, i, |names|))
    {
      var k := 0;
      while k < |names|
        invariant k <= |names| && Has(bits + DirBits(names, i, k))
      {
        if !IsDots(names[k]) {
          var h := HashName(names[k]);
          Bis(Hash(h, i), bits + DirBits(names, i, k));
          assert bits + DirBits(names, i, k) + {Hash(h, i)} == bits + DirBits(names, i, k + 1);
        }
        k := k + 1;
      }
    }

    // The table is made anew for the path.
    method DoHash(path: seq<string>, list: Listing)
      requires Valid()
      modifies this, xhash
      ensures Valid() && havhash && Has(PathBits(path, list, |path|))
    {
      havhash := true;
      Clear();
      var i := 0;
      while i < |path|
        invariant i <= |path| && havhash && Has(PathBits(path, list, i))
      {
        if IsAbsolute(path[i]) {
          match list(path[i]) {
            case None =>
            case Some(names) => EnterDirectory(names, i, PathBits(path, list, i));
          }
        }
        i := i + 1;
      }
    }

    // Whether the table passes over the i-th directory.
    method Passes(slash: bool, dir: string, hashval: nat, i: nat, ghost bits: set<nat>) returns (passed: bool)
      requires Valid() && Has(bits)
      ensures passed <==> !slash && IsAbsolute(dir) && havhash && Hash(hashval, i) !in bits
    {
      passed := false;
      if !slash && IsAbsolute(dir) && havhash {
        var hashval1 := Hash(hashval, i);
        passed := xhash[hashval1 / 8] & ((1 as bv8) << (hashval1 % 8)) == 0;
        assert passed <==> !Bit(xhash[..], hashval1);
      }
    }

    // Where the command is found: one more than the index in the path, 0 for nowhere.
    method IsCommand(exec: Exec, path: seq<string>, name: string, ghost bits: set<nat>) returns (r: nat)
      requires Valid() && Has(bits)
      ensures r == if havhash then Hashed(exec, Vector(path, name), name, bits, 0)
                   else Linear(exec, Vector(path, name), name, 0)
    {
      var slash := '/' in name;
      var pv := if path == [] || slash then [""] else path;
      var hashval := 0;
      if havhash {
        hashval := HashName(name);
      }
      var i := 0;
      while i < |pv|
        invariant i <= |pv|
        invariant havhash ==> Hashed(exec, pv, name, bits, 0) == Hashed(exec, pv, name, bits, i)
        invariant !havhash ==> Linear(exec, pv, name, 0) == Linear(exec, pv, name, i)
      {
        var passed := Passes(slash, pv[i], hashval, i, bits);
        if !passed {
          if pv[i] == "" || pv[i] == "." {
            if exec("", name) {
              return i + 1;
            }
          } else if exec(pv[i], name) {
            return i + 1;
          }
        }
        i := i + 1;
      }
      r := 0;
    }

    // After rehashing, with the directories as they were, the search by the table is the
    // plain search.
    method HashThenFind(exec: Exec, path: seq<string>, list: Listing, name: string) returns (r: nat)
      requires Valid() && Listed(exec, list, path, name) && !IsDots(name)
      modifies this, xhash
      ensures r == Linear(exec, Vector(path, name), name, 0)
    {
      DoHash(path, list);
      NothingHidden(exec, list, path, name);
      r := IsCommand(exec, path, name, PathBits(path, list, |path|));
    }
  }
}

// The directory stack commands on the loop (bin/csh/dir.c: dinit, dochngd, dopushd,
// dfind, dopopd).
module DirStack {
  import opened Shared
  import opened Numbers
  import opened DirSpec
  import opened DirRing
  import DirLaws

  // The entries read by di_prev from position t on, the sentinel at 0 skipped.
  function Turn<T>(s: seq<T>, t: nat): seq<T>
    requires 1 <= t < |s|
  {
    s[t..] + s[1..t]
  }

  // The position of the i-th entry counted from position t.
  function Place(t: nat, i: nat, n: nat): nat {
    if t + i < n then t + i else t + i + 1 - n
  }

  function NamesOf(ring: seq<Directory>): seq<string> {
    seq(|ring|, i requires 0 <= i < |ring| => ring[i].name)
  }

  lemma TurnAt<T>(s: seq<T>, t: nat, i: nat)
    requires 1 <= t < |s| && i < |s| - 1
    ensures 1 <= Place(t, i, |s|) < |s| && Turn(s, t)[i] == s[Place(t, i, |s|)]
    ensures i != 0 ==> Place(t, i, |s|) != t
    ensures Turn(s, Place(t, i, |s|)) == Rotate(Turn(s, t), i)
  {
    var n, p, turned := |s|, Place(t, i, |s|), Turn(s, t);
    if t + i < n {
      assert turned[i..] == s[p..] + s[1..t] && turned[..i] == s[t..p];
      assert s[1..p] == s[1..t] + s[t..p];
    } else {
      assert turned[i..] == s[p..t] && turned[..i] == s[t..] + s[1..p];
      assert s[p..] == s[p..t] + s[t..];
    }
  }

  // Position t once the entry at j is gone.
  function Moved(t: nat, j: nat): nat {
    if j < t then t - 1 else t
  }

  lemma TurnWithout<T>(s: seq<T>, t: nat, i: nat)
    requires 1 <= t < |s| && 0 < i < |s| - 1
    ensures var j := Place(t, i, |s|);
            Turn(Without(s, j), Moved(t, j)) == Without(Turn(s, t), i)
  {
    var n, j, turned := |s|, Place(t, i, |s|), Turn(s, t);
    var w := Without(s, j);
    if t + i < n {
      assert w[t..] == s[t..j] + s[j + 1..] && w[1..t] == s[1..t];
      assert turned[..i] == s[t..j] && turned[i + 1..] == s[j + 1..] + s[1..t];
    } else {
      assert w[t - 1..] == s[t..] && w[1..t - 1] == s[1..j] + s[j + 1..t];
      assert turned[..i] == s[t..] + s[1..j] && turned[i + 1..] == s[j + 1..t];
    }
  }

  lemma TurnTop<T>(s: seq<T>, t: nat, i: nat)
    requires 1 <= t < |s| && 0 < i < |s| - 1
    ensures var j := Place(t, i, |s|);
            Turn(Without(s, t), Moved(j, t)) == Rotate(Turn(s, t)[1..], i - 1)
  {
    var n, j, below := |s|, Place(t, i, |s|), Turn(s, t)[1..];
    var w := Without(s, t);
    assert below == s[t + 1..] + s[1..t];
    if t + i < n {
      assert w[j - 1..] == s[j..] && w[1..j - 1] == s[1..t] + s[t + 1..j];
      assert below[i - 1..] == s[j..] + s[1..t] && below[..i - 1] == s[t + 1..j];
    } else {
      assert w[j..] == s[j..t] + s[t + 1..] && w[1..j] == s[1..j];
      assert below[i - 1..] == s[j..t] && below[..i - 1] == s[t + 1..] + s[1..j];
    }
  }

  lemma TurnWith<T>(s: seq<T>, t: nat, x: T)
    requires 1 <= t < |s|
    ensures Turn(With(s, t, x), t) == [x] + Turn(s, t)
  {
  }

  lemma NamesWithout(ring: seq<Directory>, j: nat)
    requires j < |ring|
    ensures NamesOf(Without(ring, j)) == Without(NamesOf(ring), j)
  {
  }

  lemma NamesWith(ring: seq<Directory>, j: nat, dp: Directory)
    requires j <= |ring|
    ensures NamesOf(With(ring, j, dp)) == With(NamesOf(ring), j, dp.name)
  {
  }

  datatype Found = NoNumber | TooDeep | Entry(dp: Directory)

  class DirStack {
    const dhead: Directory
    var dcwd: Directory
    ghost var ring: seq<Directory>
    ghost var at: nat

    ghost predicate Valid()
      reads this, ring
    {
      Linked(ring) && 1 <= at < |ring| && ring[0] == dhead && ring[at] == dcwd
    }

    // The stack as the user sees it.
    ghost function View(): (st: seq<string>)
      reads this
      requires 1 <= at < |ring|
      ensures st != []
    {
      Turn(NamesOf(ring), at)
    }

    // dinit, given the name of the starting directory.
    constructor (cp: string)
      ensures Valid() && View() == [cp]
    {
      var head := new Directory("");
      var dp := new Directory(cp);
      head.next, head.prev := dp, dp;
      dp.next, dp.prev := head, head;
      dhead := head;
      dcwd := dp;
      ring := [head, dp];
      at := 1;
    }

    // An argument that is no positive +n names no entry; one too large is an error.
    method DFind(arg: string) returns (f: Found, ghost i: nat)
      requires Valid()
      ensures f.NoNumber? <==> Index(arg).None?
      ensures f.TooDeep? <==> Index(arg).Some? && Index(arg).value >= |View()|
      ensures f.Entry? ==>
                && Index(arg) == Some(i) && 0 < i < |View()|
                && f.dp == ring[Place(at, i, |ring|)] && f.dp != dcwd && f.dp.name == View()[i]
    {
      i := 0;
      if First(arg) != '+' {
        return NoNumber, 0;
      }
      var cp := arg[1..];
      var ep := 0;
      while ep < |cp| && IsDigit(cp[ep])
        invariant ep <= |cp| && forall k :: 0 <= k < ep ==> IsDigit(cp[k])
      {
        ep := ep + 1;
      }
      if ep < |cp| {
        return NoNumber, 0;
      }
      var n := GetN(cp).value;
      if n <= 0 {
        return NoNumber, 0;
      }
      var dp := dcwd;
      while n != 0
        invariant 0 <= i < |View()| && 0 <= n && n + i == GetN(cp).value
        invariant dp == ring[Place(at, i, |ring|)]
        decreases n
      {
        var was := dp;
        assert After(Place(at, i, |ring|), |ring|) < |ring|;
        dp := dp.prev;
        if dp == dhead {
          assert After(0, |ring|) == 1;
          dp := dp.prev;
        }
        if dp == dcwd {
          return TooDeep, i;
        }
        n := n - 1;
        i := i + 1;
      }
      TurnAt(NamesOf(ring), at, i);
      return Entry(dp), i;
    }

    // The entry next below the top.
    method Second() returns (dp: Directory)
      requires Valid()
      ensures dp == dcwd <==> |View()| == 1
      ensures |View()| > 1 ==> dp == ring[Place(at, 1, |ring|)] && dp.name == View()[1]
    {
      assert After(0, |ring|) == 1 && After(at, |ring|) < |ring|;
      dp := dcwd.prev;
      if dp == dhead {
        dp := dhead.prev;
      }
      if |View()| > 1 { TurnAt(NamesOf(ring), at, 1); }
    }

    // The entry dp, the i-th of the stack and not its top, leaves the loop.
    method Remove(dp: Directory, ghost i: nat)
      requires Valid() && 0 < i < |View()| && dp == ring[Place(at, i, |ring|)]
      modifies this, ring
      ensures Valid() && View() == Without(old(View()), i)
      ensures dcwd == old(dcwd) && ring == Without(old(ring), old(Place(at, i, |ring|)))
      ensures at == Moved(old(at), old(Place(at, i, |ring|))) && dp !in ring
    {
      ghost var j := Place(at, i, |ring|);
      TurnWithout(NamesOf(ring), at, i);
      NamesWithout(ring, j);
      Unlink(dp, ring, j);
      ring, at := Without(ring, j), Moved(at, j);
    }

    // The entry dp comes into the loop as the new top.
    method Insert(dp: Directory)
      requires Valid() && dp !in ring
      modifies this, ring, dp
      ensures Valid() && View() == [dp.name] + old(View())
      ensures forall o :: o in ring ==> o in old(ring) || o == dp
    {
      TurnWith(NamesOf(ring), at, dp.name);
      NamesWith(ring, at, dp);
      Link(dp, dcwd, ring, at);
      ring := With(ring, at, dp);
      dcwd := dp;
    }

    // The top leaves the loop, and dp, the i-th entry, is the new one.
    method Leave(dp: Directory, ghost i: nat)
      requires Valid() && 0 < i < |View()| && dp == ring[Place(at, i, |ring|)]
      modifies this, ring
      ensures Valid() && View() == Rotate(old(View())[1..], i - 1)
      ensures dcwd == dp && old(dcwd) !in ring && forall o :: o in ring ==> o in old(ring)
    {
      ghost var j := Place(at, i, |ring|);
      TurnTop(NamesOf(ring), at, i);
      NamesWithout(ring, at);
      Unlink(dcwd, ring, at);
      ring, at := Without(ring, at), Moved(j, at);
      dcwd := dp;
    }

    // A new entry takes the place of the top.
    method Replace(cp: string)
      requires Valid()
      modifies this, ring
      ensures Valid() && View() == [cp] + old(View())[1..] && old(dcwd) !in ring
      ensures forall o :: o in ring ==> o in old(ring) || fresh(o)
    {
      var dp := new Directory(cp);
      ghost var s := ring[at := dp];
      ghost var n := |ring|;
      ghost var before, behind := if at == 0 then n - 1 else at - 1, After(at, n);
      assert After(before, n) == at;
      dp.next := dcwd.next;
      dp.prev := dcwd.prev;
      dp.prev.next := dp;
      dp.next.prev := dp;
      forall x | 0 <= x < n
        ensures s[x].prev == s[After(x, n)] && s[After(x, n)].next == s[x]
      {
        assert After(x, n) == at <==> x == before;
      }
      ring := s;
      dcwd := dp;
      assert NamesOf(s) == old(NamesOf(ring))[at := cp];
      assert View() == [cp] + old(View())[1..];
    }

    // An entry still in use by a process is kept, out of the loop.
    method DFree(dp: Directory)
      modifies dp
      ensures dp.count == old(dp.count)
      ensures old(dp.count) != 0 ==> dp.next == null && dp.prev == null
    {
      if dp.count != 0 {
        dp.next, dp.prev := null, null;
      }
    }

    // Whether the entry is the only one.
    method Alone(dp: Directory, ghost i: nat) returns (b: bool)
      requires Valid() && i < |View()| && dp == ring[Place(at, i, |ring|)]
      ensures b <==> |View()| == 1
    {
      ghost var j, n := Place(at, i, |ring|), |ring|;
      assert After(j, n) < n && After(j - 1, n) == j;
      b := dp.prev == dhead && dp.next == dhead;
    }

    // The second entry comes in front of the top.
    method Exchange(dp: Directory)
      requires Valid() && |View()| > 1 && dp == ring[Place(at, 1, |ring|)] && dp.name == View()[1]
      modifies this, ring
      ensures Valid() && View() == [old(View())[1], old(View())[0]] + old(View())[2..]
      ensures forall o :: o in ring ==> o in old(ring) || o == dp
    {
      ghost var was := View();
      Remove(dp, 1);
      Insert(dp);
      assert [was[1]] + Without(was, 1) == [was[1], was[0]] + was[2..];
    }

    // The i-th entry becomes the top where it is.
    method BringUp(dp: Directory, ghost i: nat)
      requires Valid() && 0 < i < |View()| && dp == ring[Place(at, i, |ring|)]
      modifies this
      ensures Valid() && View() == Rotate(old(View()), i) && ring == old(ring)
    {
      TurnAt(NamesOf(ring), at, i);
      dcwd := dp;
      at := Place(at, i, |ring|);
    }

    method DoPushd(env: Env, v: seq<string>) returns (e: Option<DirError>)
      requires Valid()
      modifies this, ring
      ensures Valid()
      ensures PushdStep(env, old(View()), v) == match e case None => Success(View()) case Some(x) => Failure(x)
      ensures e.Some? ==> View() == old(View())
      ensures forall o :: o in ring ==> o in old(ring) || fresh(o)
    {
      assert View()[0] == dcwd.name;
      if v == [] {
        var dp := Second();
        if dp == dcwd {
          return Some(NoDir);
        }
        if !env.chdir(dp.name) {
          return Some(System);
        }
        Exchange(dp);
      } else if |v| > 1 {
        return Some(TooMany);
      } else {
        var f, i := DFind(v[0]);
        match f {
          case TooDeep => return Some(Deep);
          case Entry(dp) =>
            if !env.chdir(dp.name) {
              return Some(System);
            }
            BringUp(dp, i);
          case NoNumber =>
            match env.follow(dcwd.name, v[0]) {
              case None => return Some(System);
              case Some(cp) =>
                var dp := new Directory(cp);
                Insert(dp);
            }
        }
      }
      e := None;
    }

    method DoPopd(env: Env, v: seq<string>) returns (e: Option<DirError>)
      requires Valid()
      modifies this, ring
      ensures Valid()
      ensures PopdStep(env, old(View()), v) == match e case None => Success(View()) case Some(x) => Failure(x)
      ensures e.Some? ==> View() == old(View())
      ensures forall o :: o in ring ==> o in old(ring) || fresh(o)
    {
      var dp := dcwd;
      ghost var i := 0;
      if |v| > 1 {
        return Some(TooMany);
      } else if |v| == 1 {
        var f, k := DFind(v[0]);
        match f {
          case TooDeep => return Some(Deep);
          case NoNumber => return Some(BadDir);
          case Entry(d) => dp, i := d, k;
        }
      }
      var alone := Alone(dp, i);
      if alone {
        return Some(Empty);
      }
      if dp == dcwd {
        var p := Second();
        if !env.chdir(p.name) {
          return Some(System);
        }
        ghost var was := View();
        Leave(p, 1);
        assert Rotate(was[1..], 0) == was[1..];
      } else {
        Remove(dp, i);
      }
      DFree(dp);
      e := None;
    }

    // The top is left for the i-th entry.
    method GoTo(dp: Directory, ghost i: nat)
      requires Valid() && 0 < i < |View()| && dp == ring[Place(at, i, |ring|)]
      modifies this, ring
      ensures Valid() && View() == Rotate(old(View())[1..], i - 1) && forall o :: o in ring ==> o in old(ring)
    {
      var was := dcwd;
      Leave(dp, i);
      DFree(was);
    }

    // The top is left for a new entry.
    method NewTop(cp: string)
      requires Valid()
      modifies this, ring
      ensures Valid() && View() == [cp] + old(View())[1..] && forall o :: o in ring ==> o in old(ring) || fresh(o)
    {
      var was := dcwd;
      Replace(cp);
      DFree(was);
    }

    method DoChngd(env: Env, v: seq<string>) returns (e: Option<DirError>)
      requires Valid()
      modifies this, ring
      ensures Valid()
      ensures CdStep(env, old(View()), v) == match e case None => Success(View()) case Some(x) => Failure(x)
      ensures e.Some? ==> View() == old(View())
      ensures forall o :: o in ring ==> o in old(ring) || fresh(o)
    {
      var cp;
      assert View()[0] == dcwd.name;
      if v == [] {
        if env.home == "" {
          return Some(NoHome);
        }
        if !env.chdir(env.home) {
          return Some(CantChange);
        }
        cp := env.home;
      } else if |v| > 1 {
        return Some(TooMany);
      } else {
        var f, i := DFind(v[0]);
        match f {
          case TooDeep => return Some(Deep);
          case Entry(dp) =>
            if !env.chdir(dp.name) {
              return Some(System);
            }
            GoTo(dp, i);
            return None;
          case NoNumber =>
            match env.follow(dcwd.name, v[0]) {
              case None => return Some(System);
              case Some(name) => cp := name;
            }
        }
      }
      NewTop(cp);
      e := None;
    }

    method Perform(env: Env, c: Command) returns (e: Option<DirError>)
      requires Valid()
      modifies this, ring
      ensures Valid()
      ensures Step(env, old(View()), c) == match e case None => Success(View()) case Some(x) => Failure(x)
      ensures e.Some? ==> View() == old(View())
      ensures forall o :: o in ring ==> o in old(ring) || fresh(o)
    {
      match c.verb {
        case Cd => e := DoChngd(env, c.args);
        case Pushd => e := DoPushd(env, c.args);
        case Popd => e := DoPopd(env, c.args);
      }
    }

    // Any sequence of commands keeps the loop well formed, and its effect on the stack is
    // that of the commands one after the other; the directory entered last is on top.
    method PerformAll(env: Env, cs: seq<Command>)
      requires Valid()
      modifies this, ring
      ensures Valid() && View() == Run(env, old(View()), cs)
      ensures View()[0] == DirLaws.Cwd(env, old(View()), cs, old(View())[0])
    {
      DirLaws.RunOnTop(env, View(), cs);
      var i := 0;
      while i < |cs|
        invariant i <= |cs| && Valid()
        invariant forall k :: 0 <= k < |ring| ==> ring[k] in old(ring) || fresh(ring[k])
        invariant Run(env, View(), cs[i..]) == Run(env, old(View()), cs)
      {
        assert cs[i..][0] == cs[i] && cs[i..][1..] == cs[i + 1..];
        ghost var was := ring;
        var e := Perform(env, cs[i]);
        forall k | 0 <= k < |ring| ensures ring[k] in old(ring) || fresh(ring[k]) {
          assert ring[k] in ring;
          if ring[k] in was {
            ghost var m :| 0 <= m < |was| && was[m] == ring[k];
          }
        }
        i := i + 1;
      }
    }
  }
}

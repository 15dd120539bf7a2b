// The directory loop (bin/csh/dir.c: struct directory, dhead, dcwd): a circular doubly
// linked list with one sentinel, and the two link updates all commands are made of.
module DirRing {
  import opened DirSpec

  class Directory {
    var next: Directory?
    var prev: Directory?
    var count: nat
    const name: string

    constructor (name: string)
      ensures this.name == name && count == 0
    {
      this.name := name;
      next, prev, count := null, null, 0;
    }
  }

  function After(i: nat, n: nat): nat {
    if i + 1 == n then 0 else i + 1
  }

  // The ring in the order of di_prev, from the sentinel on.
  ghost predicate Linked(ring: seq<Directory>)
    reads ring
  {
    && (forall i, j :: 0 <= i < j < |ring| ==> ring[i] != ring[j])
    && (forall i {:trigger After(i, |ring|)} :: 0 <= i < |ring| ==>
          ring[i].prev == ring[After(i, |ring|)] && ring[After(i, |ring|)].next == ring[i])
  }

  // dp->di_prev->di_next = dp->di_next; dp->di_next->di_prev = dp->di_prev
  method Unlink(dp: Directory, ghost ring: seq<Directory>, ghost j: nat)
    requires Linked(ring) && 2 <= |ring| && j < |ring| && ring[j] == dp
    modifies ring
    ensures Linked(Without(ring, j))
    ensures dp.prev == old(dp.prev) && dp.next == old(dp.next)
  {
    ghost var n := |ring|;
    ghost var before, behind := if j == 0 then n - 1 else j - 1, After(j, n);
    assert After(before, n) == j;
    dp.prev.next := dp.next;
    dp.next.prev := dp.prev;
    ghost var s := Without(ring, j);
    forall x | 0 <= x < |s|
      ensures s[x].prev == s[After(x, |s|)] && s[After(x, |s|)].next == s[x]
    {
      ghost var y := After(x, |s|);
      ghost var u, v := if x < j then x else x + 1, if y < j then y else y + 1;
      assert s[x] == ring[u] && s[y] == ring[v];
      assert if u == before then v == behind else v == After(u, n);
    }
  }

  // The new entry goes in front of the one at j, that is behind it in the order of di_next.
  method Link(dp: Directory, at: Directory, ghost ring: seq<Directory>, ghost j: nat)
    requires Linked(ring) && 1 <= j < |ring| && ring[j] == at && dp !in ring
    modifies ring, dp
    ensures Linked(With(ring, j, dp))
  {
    ghost var n := |ring|;
    assert After(j - 1, n) == j;
    dp.prev := at;
    dp.next := at.next;
    dp.next.prev := dp;
    at.next := dp;
    ghost var s := With(ring, j, dp);
    forall x | 0 <= x < |s|
      ensures s[x].prev == s[After(x, |s|)] && s[After(x, |s|)].next == s[x]
    {
      ghost var y := After(x, |s|);
      if x == j {
        assert y == j + 1 && s[y] == ring[j];
      } else {
        ghost var u := if x < j then x else x - 1;
        assert s[x] == ring[u];
        if y != j {
          ghost var v := After(u, n);
          assert s[y] == ring[v];
        }
      }
    }
  }
}

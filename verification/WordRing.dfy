// The circular doubly linked word list (bin/csh/csh.h: struct wordent) and its surgery:
// building a list (lex), cutting words out (freenod) and putting a list in (asyn3).
module WordRing {

  class Wordent {
    var word: string
    var prev: Wordent?
    var next: Wordent?

    constructor (word: string)
      ensures this.word == word
    {
      this.word := word;
      prev, next := null, null;
    }
  }

  function Succ(ring: seq<Wordent>, i: nat): Wordent
    requires i < |ring|
  {
    if i + 1 == |ring| then ring[0] else ring[i + 1]
  }

  ghost predicate Distinct(ring: seq<Wordent>) {
    forall i, j :: 0 <= i < j < |ring| ==> ring[i] != ring[j]
  }

  // The nodes in the order of next, the head first.
  ghost predicate Linked(ring: seq<Wordent>)
    reads ring
  {
    && ring != [] && Distinct(ring)
    && (forall i {:trigger Succ(ring, i)} :: 0 <= i < |ring| ==>
          ring[i].next == Succ(ring, i) && Succ(ring, i).prev == ring[i])
  }

  // The node at position i, the head again at the end.
  function Node(ring: seq<Wordent>, i: nat): Wordent
    requires i <= |ring| && ring != []
  {
    if i == |ring| then ring[0] else ring[i]
  }

  ghost function WordsOf(ring: seq<Wordent>): (ws: seq<string>)
    reads ring
    ensures |ws| == |ring| && forall i :: 0 <= i < |ws| ==> ws[i] == ring[i].word
  {
    seq(|ring|, i requires 0 <= i < |ring| reads ring => ring[i].word)
  }

  lemma Around(ring: seq<Wordent>, i: nat)
    requires Linked(ring) && i < |ring|
    ensures ring[i].next == Node(ring, i + 1) && Node(ring, i + 1).prev == ring[i]
  {
    assert Succ(ring, i) == Node(ring, i + 1);
  }

  // Two nodes are the same exactly when their positions are.
  lemma SameNode(ring: seq<Wordent>, lo: nat, hi: nat)
    requires Distinct(ring) && 1 <= lo <= hi <= |ring|
    ensures Node(ring, lo) == Node(ring, hi) <==> lo == hi
  {
  }

  // The list lex builds: the words and a newline behind a head.
  method MakeList(words: seq<string>) returns (hp: Wordent, ghost ring: seq<Wordent>)
    ensures Linked(ring) && hp == ring[0] && |ring| == |words| + 2
    ensures forall k :: 0 <= k < |ring| ==> fresh(ring[k])
    ensures WordsOf(ring)[1..] == words + ["\n"]
  {
    hp := new Wordent("");
    hp.next, hp.prev := hp, hp;
    var wdp := hp;
    ring := [hp];
    var i := 0;
    while i <= |words|
      invariant i <= |words| + 1 && |ring| == i + 1 && ring[0] == hp && ring[i] == wdp
      invariant forall k :: 0 <= k < |ring| ==> fresh(ring[k])
      invariant Distinct(ring)
      invariant forall k {:trigger ring[k].next} :: 0 <= k <= i ==> ring[k].next == Succ(ring, k)
      invariant forall k {:trigger ring[k].prev} :: 0 < k <= i ==> ring[k].prev == ring[k - 1]
      invariant forall k :: 0 < k <= i ==> ring[k].word == if k - 1 < |words| then words[k - 1] else "\n"
    {
      var node := new Wordent(if i < |words| then words[i] else "\n");
      node.prev := wdp;
      node.next := hp;
      wdp.next := node;
      wdp := node;
      ring := ring + [node];
      i := i + 1;
    }
    hp.prev := wdp;
  }

  // The nodes from p1 up to but not including p2 are freed one after the other.
  method FreeAll(p1: Wordent, p2: Wordent, ghost ring: seq<Wordent>, ghost at: nat, ghost k: nat)
    requires Linked(ring) && 1 <= at <= k <= |ring| && p1 == Node(ring, at) && p2 == Node(ring, k)
  {
    var p := p1;
    ghost var j := at;
    while p != p2
      invariant at <= j <= k && p == Node(ring, j)
      decreases k - j
    {
      SameNode(ring, j, k);
      Around(ring, j);
      p := p.next;
      j := j + 1;
    }
  }

  // Cut out the nodes from p1 up to but not including p2.
  method FreeNod(p1: Wordent, p2: Wordent, ghost ring: seq<Wordent>, ghost at: nat, ghost k: nat)
      returns (retp: Wordent)
    requires Linked(ring) && 1 <= at <= k <= |ring| && p1 == Node(ring, at) && p2 == Node(ring, k)
    modifies ring
    ensures Linked(ring[..at] + ring[k..]) && retp == ring[at - 1]
    ensures forall i :: 0 <= i < |ring| ==> ring[i].word == old(ring[i].word)
  {
    Around(ring, at - 1);
    retp := p1.prev;
    FreeAll(p1, p2, ring, at, k);
    ghost var s := ring[..at] + ring[k..];
    retp.next := p2;
    p2.prev := retp;
    forall x | 0 <= x < |s| ensures s[x].next == Succ(s, x) && Succ(s, x).prev == s[x] {
      if x + 1 == at {
        assert s[x] == retp && Succ(s, x) == p2;
      } else {
        ghost var u := if x < at then x else x + (k - at);
        assert s[x] == ring[u] != retp && Succ(s, x) == Succ(ring, u);
        assert Succ(ring, u) != p2 by { assert Succ(ring, u) == Node(ring, u + 1); }
      }
    }
  }

  ghost predicate Apart(ring: seq<Wordent>, list: seq<Wordent>) {
    forall i, j :: 0 <= i < |ring| && 0 <= j < |list| ==> ring[i] != list[j]
  }

  // Where the entries of a ring with a list put in come from.
  lemma Spliced(ring: seq<Wordent>, at: nat, list: seq<Wordent>, x: nat)
    requires 1 <= at <= |ring| && |list| >= 2 && x < |ring| + |list| - 2
    ensures var n := |list|;
            var s := ring[..at] + list[1..n - 1] + ring[at..];
            && x < |s|
            && (x < at ==> s[x] == ring[x] && (x + 1 < at ==> Succ(s, x) == Succ(ring, x)))
            && (at <= x < at + n - 2 ==>
                  s[x] == list[x - at + 1] && (x + 1 < at + n - 2 ==> Succ(s, x) == Succ(list, x - at + 1)))
            && (x >= at + n - 2 ==> s[x] == ring[x - (n - 2)] && Succ(s, x) == Succ(ring, x - (n - 2)))
  {
  }

  // Put the words of a list, all but its last, behind p1.
  method Insert(p1: Wordent, alout: Wordent, ghost ring: seq<Wordent>, ghost at: nat, ghost list: seq<Wordent>)
    requires Linked(ring) && 1 <= at <= |ring| && p1 == ring[at - 1]
    requires Linked(list) && |list| >= 2 && alout == list[0] && Apart(ring, list)
    modifies ring, list
    ensures Linked(ring[..at] + list[1..|list| - 1] + ring[at..])
    ensures forall i :: 0 <= i < |ring| ==> ring[i].word == old(ring[i].word)
    ensures forall i :: 0 <= i < |list| ==> list[i].word == old(list[i].word)
  {
    ghost var n := |list|;
    Around(ring, at - 1);
    Around(list, n - 1);
    Around(list, n - 2);
    Around(list, 0);
    ghost var s := ring[..at] + list[1..n - 1] + ring[at..];
    ghost var after := Node(ring, at);
    assert p1.next == after && alout.prev.prev == list[n - 2] && alout.next == list[1];
    p1.next.prev := alout.prev.prev;
    alout.prev.prev.next := p1.next;
    alout.next.prev := p1;
    p1.next := alout.next;
    forall x | 0 <= x < |s| ensures s[x].next == Succ(s, x) && Succ(s, x).prev == s[x] {
      Spliced(ring, at, list, x);
    }
  }
}

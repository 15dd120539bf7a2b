// The input buffer (bin/csh/lex.c: bgetc, bfree, bseek, btell), over a file that can be
// sought and over a stream that cannot. Both look the same from outside: a text that is
// read from a position, and positions of loops to which reading goes back.
module InputBuffer {
  import opened Shared

  // Reading, keeping the position of a loop (btell), going to the i-th position kept
  // (bseek), leaving the innermost loop, and freeing what has been read (bfree).
  datatype Op = Getc | Tell | Seek(i: nat) | Forget | Free

  // The position in the text and those kept for the open loops, the innermost last.
  datatype State = State(pos: nat, whyles: seq<nat>)

  function Next(text: string, s: State, op: Op): State {
    match op
    case Getc => if s.pos < |text| then s.(pos := s.pos + 1) else s
    case Tell => s.(whyles := s.whyles + [s.pos])
    case Seek(i) => if i < |s.whyles| then s.(pos := s.whyles[i]) else s
    case Forget => if s.whyles == [] then s else s.(whyles := s.whyles[..|s.whyles| - 1])
    case Free => s
  }

  // What an operation reads: None at the end of the text.
  function Out(text: string, s: State, op: Op): seq<Option<char>> {
    if op != Getc then [] else if s.pos < |text| then [Some(text[s.pos])] else [None]
  }

  function Reads(text: string, s: State, ops: seq<Op>): seq<Option<char>>
    decreases |ops|
  {
    if ops == [] then [] else Out(text, s, ops[0]) + Reads(text, Next(text, s, ops[0]), ops[1..])
  }

  lemma OneMore(text: string, s: State, ops: seq<Op>, i: nat, r: seq<Option<char>>)
    requires i < |ops|
    ensures r + Reads(text, s, ops[i..])
         == r + Out(text, s, ops[i]) + Reads(text, Next(text, s, ops[i]), ops[i + 1..])
  {
    assert ops[i..][1..] == ops[i + 1..];
    var out, more := Out(text, s, ops[i]), Reads(text, Next(text, s, ops[i]), ops[i + 1..]);
    assert r + (out + more) == r + out + more;
  }

  function Run(text: string, s: State, ops: seq<Op>): State
    decreases |ops|
  {
    if ops == [] then s else Run(text, Next(text, s, ops[0]), ops[1..])
  }

  function Getcs(n: nat): seq<Op> {
    if n == 0 then [] else [Getc] + Getcs(n - 1)
  }

  lemma {:induction false} ReadsOn(text: string, s: State, a: seq<Op>, b: seq<Op>)
    ensures Reads(text, s, a + b) == Reads(text, s, a) + Reads(text, Run(text, s, a), b)
    decreases |a|
  {
    if a == [] {
      assert [] + b == b;
    } else {
      ReadsOn(text, Next(text, s, a[0]), a[1..], b);
      assert (a + b)[1..] == a[1..] + b;
    }
  }

  // Reading on gives the text from the position on, and ends where it ends.
  lemma {:induction false} ReadsText(text: string, s: State, n: nat)
    requires s.pos <= |text|
    ensures |Reads(text, s, Getcs(n))| == n
    ensures forall i :: 0 <= i < n ==>
              Reads(text, s, Getcs(n))[i] == if s.pos + i < |text| then Some(text[s.pos + i]) else None
    ensures Run(text, s, Getcs(n)) == s.(pos := if s.pos + n < |text| then s.pos + n else |text|)
    decreases n
  {
    if n > 0 {
      var s' := Next(text, s, Getc);
      ReadsText(text, s', n - 1);
      assert Getcs(n)[1..] == Getcs(n - 1);
    }
  }

  lemma QuietFirst(text: string, s: State, op: Op, ops: seq<Op>)
    requires op != Getc
    ensures Reads(text, s, [op] + ops) == Reads(text, Next(text, s, op), ops)
    ensures Run(text, s, [op] + ops) == Run(text, Next(text, s, op), ops)
  {
    assert ([op] + ops)[1..] == ops;
    assert [] + Reads(text, Next(text, s, op), ops) == Reads(text, Next(text, s, op), ops);
  }

  // What is read does not depend on the positions kept.
  lemma {:induction false} SameReads(text: string, s: State, w: seq<nat>, n: nat)
    ensures Reads(text, s.(whyles := w), Getcs(n)) == Reads(text, s, Getcs(n))
    decreases n
  {
    if n > 0 {
      SameReads(text, Next(text, s, Getc), w, n - 1);
      assert Getcs(n)[1..] == Getcs(n - 1);
    }
  }

  // A position kept, read on from, and gone back to replays what was read.
  lemma Replays(text: string, s: State, n: nat)
    requires s.pos <= |text|
    ensures Reads(text, s, [Tell] + Getcs(n) + ([Seek(|s.whyles|)] + Getcs(n)))
         == Reads(text, s, Getcs(n)) + Reads(text, s, Getcs(n))
  {
    var told := s.(whyles := s.whyles + [s.pos]);
    var on := Run(text, told, Getcs(n));
    QuietFirst(text, s, Tell, Getcs(n));
    ReadsOn(text, s, [Tell] + Getcs(n), [Seek(|s.whyles|)] + Getcs(n));
    ReadsText(text, told, n);
    QuietFirst(text, on, Seek(|s.whyles|), Getcs(n));
    assert Next(text, on, Seek(|s.whyles|)) == told;
    SameReads(text, s, told.whyles, n);
  }

  const BUFSIZE := 4096

  // How much one read gives: at least one character before the end, at most what there is
  // room for.
  function Given(asked: nat, room: nat, left: nat): (c: nat)
    requires room > 0
    ensures c <= room && c <= left && (c == 0 <==> left == 0)
  {
    var most := if room < left then room else left;
    if left == 0 then 0 else if asked == 0 then 1 else if asked < most then asked else most
  }

  // ----- a file -----

  class SeekBuffer {
    const text: string
    const asked: nat -> nat
    const fbuf: array<char>
    var offset: nat
    var fseekp: nat
    var fbobp: nat
    var feobp: nat
    var whyles: seq<nat>

    // The descriptor stands at the end of the window, which shows the file.
    ghost predicate Valid()
      reads this, fbuf
    {
      && fbuf.Length == BUFSIZE
      && fbobp <= feobp <= fbobp + BUFSIZE && offset == feobp && (fbobp == feobp || feobp <= |text|)
      && (forall i :: 0 <= i < feobp - fbobp ==> fbuf[i] == text[fbobp + i])
    }

    ghost function View(): State
      reads this
    {
      State(fseekp, whyles)
    }

    // settell, the descriptor being at start.
    constructor (text: string, asked: nat -> nat, start: nat)
      ensures Valid() && View() == State(start, []) && this.text == text && fresh(fbuf)
    {
      this.text, this.asked := text, asked;
      fbuf := new char[BUFSIZE];
      offset, fseekp, fbobp, feobp, whyles := start, start, start, start, [];
    }

    // read(SHIN, tbuf, BUFSIZE) and the copy to the buffer.
    method Fill() returns (c: nat)
      requires fbuf.Length == BUFSIZE
      modifies this`offset, fbuf
      ensures offset == old(offset) + c && c <= BUFSIZE
      ensures if c == 0 then |text| <= old(offset) else offset <= |text|
      ensures forall i :: 0 <= i < c ==> fbuf[i] == text[old(offset) + i]
    {
      c := Given(asked(offset), BUFSIZE, if offset <= |text| then |text| - offset else 0);
      if c == 0 {
        return;
      }
      ghost var was := offset;
      var tbuf := text[offset..offset + c];
      offset := offset + c;
      var i := 0;
      while i < c
        invariant i <= c && offset == was + c && forall k :: 0 <= k < i ==> fbuf[k] == tbuf[k]
      {
        fbuf[i] := tbuf[i];
        i := i + 1;
      }
      assert forall k :: 0 <= k < c ==> tbuf[k] == text[was + k];
    }

    // Any position at all; the window follows with the next read.
    method BSeek(l: nat)
      requires Valid()
      modifies this`fseekp
      ensures Valid() && View() == old(View()).(pos := l)
    {
      fseekp := l;
    }

    method BGetc() returns (c: Option<char>)
      requires Valid()
      modifies this, fbuf
      ensures Valid() && [c] == Out(text, old(View()), Getc) && View() == Next(text, old(View()), Getc)
    {
      if fseekp < fbobp || fseekp > feobp {
        fbobp, feobp := fseekp, fseekp;
        offset := fseekp;
      }
      if fseekp == feobp {
        fbobp := feobp;
        var n := Fill();
        if n <= 0 {
          return None;
        }
        feobp := feobp + n;
      }
      c := Some(fbuf[fseekp - fbobp]);
      fseekp := fseekp + 1;
    }

    method Perform(op: Op) returns (r: seq<Option<char>>)
      requires Valid()
      modifies this, fbuf
      ensures Valid() && r == Out(text, old(View()), op) && View() == Next(text, old(View()), op)
    {
      r := [];
      match op {
        case Getc =>
          var c := BGetc();
          r := [c];
        case Tell => whyles := whyles + [fseekp];
        case Seek(i) => if i < |whyles| { BSeek(whyles[i]); }
        case Forget => if whyles != [] { whyles := whyles[..|whyles| - 1]; }
        case Free =>
      }
    }

    // However the operations are mixed, what is read is the text.
    method PerformAll(ops: seq<Op>) returns (r: seq<Option<char>>)
      requires Valid()
      modifies this, fbuf
      ensures Valid() && r == Reads(text, old(View()), ops)
    {
      r := [];
      var i := 0;
      while i < |ops|
        invariant i <= |ops| && Valid()
        invariant r + Reads(text, View(), ops[i..]) == Reads(text, old(View()), ops)
      {
        ghost var view := View();
        OneMore(text, view, ops, i, r);
        var out := Perform(ops[i]);
        r := r + out;
        i := i + 1;
      }
      assert r + [] == r;
    }
  }

  // ----- a stream -----

  // What is read is kept in blocks for as long as a loop may go back to it.
  class BlockBuffer {
    const text: string
    const asked: nat -> nat
    var offset: nat
    var fbuf: seq<array<char>>
    var fseekp: nat
    var feobp: nat
    var whyles: seq<nat>
    ghost var freed: nat

    ghost predicate Blocks()
      reads this
    {
      && (forall b :: 0 <= b < |fbuf| ==> fbuf[b].Length == BUFSIZE)
      && (forall b, d :: 0 <= b < d < |fbuf| ==> fbuf[b] != fbuf[d])
    }

    // The blocks hold the text read from the stream but for the characters freed.
    ghost predicate Holds()
      reads this, fbuf
      requires Blocks()
    {
      && feobp <= |fbuf| * BUFSIZE && freed + feobp <= |text|
      && (forall b :: 0 <= b < |fbuf| ==> Shows(fbuf[b], text, freed + b * BUFSIZE, freed + feobp))
    }

    ghost predicate Valid()
      reads this, fbuf
    {
      && Blocks() && Holds() && offset == freed + feobp && fseekp <= feobp
      && (forall k :: 0 <= k < |whyles| ==> whyles[k] <= feobp)
    }

    ghost function View(): State
      reads this
    {
      State(freed + fseekp, seq(|whyles|, k requires 0 <= k < |whyles| reads this => freed + whyles[k]))
    }

    constructor (text: string, asked: nat -> nat)
      ensures Valid() && View() == State(0, []) && this.text == text && fbuf == []
    {
      this.text, this.asked := text, asked;
      offset, fbuf, fseekp, feobp, whyles, freed := 0, [], 0, 0, [], 0;
    }

    // Another block, until there is one for the position.
    method MakeRoom()
      requires Valid()
      modifies this`fbuf
      ensures Valid() && fseekp / BUFSIZE < |fbuf|
      ensures forall b :: 0 <= b < |fbuf| ==> fbuf[b] in old(fbuf) || fresh(fbuf[b])
    {
      while fseekp / BUFSIZE >= |fbuf|
        invariant Valid()
        invariant forall b :: 0 <= b < |fbuf| ==> fbuf[b] in old(fbuf) || fresh(fbuf[b])
        decreases fseekp / BUFSIZE - |fbuf|
      {
        var block := new char[BUFSIZE];
        fbuf := fbuf + [block];
      }
    }

    // read(SHIN, tbuf, roomleft) and the copy to the block the text ends in.
    method Fill(buf: nat, off: nat) returns (c: nat)
      requires Valid() && buf < |fbuf| && off < BUFSIZE && feobp == buf * BUFSIZE + off
      modifies this`offset, this`feobp, fbuf[buf]
      ensures Valid() && feobp == old(feobp) + c && (c == 0 ==> old(offset) == |text|)
    {
      c := Given(asked(offset), BUFSIZE - off, |text| - offset);
      ghost var base := freed + buf * BUFSIZE;
      CopyBlock(fbuf[buf], off, text[offset..offset + c], text, base, offset);
      offset := offset + c;
      feobp := feobp + c;
      forall b | 0 <= b < |fbuf| ensures Shows(fbuf[b], text, freed + b * BUFSIZE, freed + feobp) {
        if b != buf { assert fbuf[b] != fbuf[buf]; }
      }
    }

    // bgetc where no terminal is read: one read when the blocks have no more.
    method BGetc() returns (c: Option<char>)
      requires Valid()
      modifies this, fbuf
      ensures Valid() && [c] == Out(text, old(View()), Getc) && View() == Next(text, old(View()), Getc)
      ensures forall b :: 0 <= b < |fbuf| ==> fbuf[b] in old(fbuf) || fresh(fbuf[b])
    {
      MakeRoom();
      if fseekp >= feobp {
        var n := Fill(fseekp / BUFSIZE, fseekp % BUFSIZE);
        if n <= 0 {
          return None;
        }
      }
      var ch := Take();
      c := Some(ch);
    }

    // The character at the position, which is in the blocks.
    method Take() returns (ch: char)
      requires Valid() && fseekp < feobp
      modifies this`fseekp
      ensures Valid() && freed + old(fseekp) < |text| && ch == text[freed + old(fseekp)] && fseekp == old(fseekp) + 1
    {
      var buf, off := fseekp / BUFSIZE, fseekp % BUFSIZE;
      assert Shows(fbuf[buf], text, freed + buf * BUFSIZE, freed + feobp);
      ch := fbuf[buf][off];
      fseekp := fseekp + 1;
    }

    // Outside loops the blocks in front of the last character read are given back, and
    // positions count from the first block kept.
    method BFree()
      requires Valid()
      modifies this`fbuf, this`fseekp, this`feobp, this`freed
      ensures Valid() && View() == old(View())
      ensures forall b :: 0 <= b < |fbuf| ==> fbuf[b] in old(fbuf)
      ensures whyles == [] ==> fseekp <= BUFSIZE
    {
      if whyles != [] {
        return;
      }
      var sb := if fseekp == 0 then 0 else (fseekp - 1) / BUFSIZE;
      if sb > 0 {
        ghost var was := fbuf;
        fbuf := fbuf[sb..];
        fseekp := fseekp - BUFSIZE * sb;
        feobp := feobp - BUFSIZE * sb;
        freed := freed + BUFSIZE * sb;
        forall b | 0 <= b < |fbuf| ensures Shows(fbuf[b], text, freed + b * BUFSIZE, freed + feobp) {
          assert fbuf[b] == was[sb + b];
        }
      }
    }

    method Perform(op: Op) returns (r: seq<Option<char>>)
      requires Valid()
      modifies this, fbuf
      ensures Valid() && r == Out(text, old(View()), op) && View() == Next(text, old(View()), op)
      ensures forall b :: 0 <= b < |fbuf| ==> fbuf[b] in old(fbuf) || fresh(fbuf[b])
    {
      r := [];
      match op {
        case Getc =>
          var c := BGetc();
          r := [c];
        case Tell => whyles := whyles + [fseekp];
        case Seek(i) => if i < |whyles| { fseekp := whyles[i]; }
        case Forget => if whyles != [] { whyles := whyles[..|whyles| - 1]; }
        case Free => BFree();
      }
    }

    // However the operations are mixed, what is read is the text: a position kept and gone
    // back to gives the same characters again, and freeing blocks is not seen.
    method PerformAll(ops: seq<Op>) returns (r: seq<Option<char>>)
      requires Valid()
      modifies this, fbuf
      ensures Valid() && r == Reads(text, old(View()), ops)
    {
      r := [];
      var i := 0;
      while i < |ops|
        invariant i <= |ops| && Valid()
        invariant forall b :: 0 <= b < |fbuf| ==> fbuf[b] in old(fbuf) || fresh(fbuf[b])
        invariant r + Reads(text, View(), ops[i..]) == Reads(text, old(View()), ops)
      {
        ghost var was := fbuf;
        ghost var view := View();
        OneMore(text, view, ops, i, r);
        var out := Perform(ops[i]);
        r := r + out;
        i := i + 1;
        forall b | 0 <= b < |fbuf| ensures fbuf[b] in old(fbuf) || fresh(fbuf[b]) {
          if fbuf[b] in was {
            ghost var k :| 0 <= k < |was| && was[k] == fbuf[b];
          }
        }
      }
      assert r + [] == r;
    }
  }

  // The block shows the text from base on, as far as end.
  ghost predicate Shows(block: array<char>, text: string, base: nat, end: nat)
    reads block
    requires block.Length == BUFSIZE && end <= |text|
  {
    forall j :: 0 <= j < BUFSIZE && base + j < end ==> block[j] == text[base + j]
  }

  method CopyBlock(block: array<char>, off: nat, tbuf: string, ghost text: string, ghost base: nat, ghost end: nat)
    requires block.Length == BUFSIZE && off + |tbuf| <= BUFSIZE && base + off == end && end + |tbuf| <= |text|
    requires Shows(block, text, base, end) && tbuf == text[end..end + |tbuf|]
    modifies block
    ensures Shows(block, text, base, end + |tbuf|)
  {
    var i := 0;
    while i < |tbuf|
      invariant i <= |tbuf| && Shows(block, text, base, end + i)
    {
      block[off + i] := tbuf[i];
      i := i + 1;
    }
  }
}

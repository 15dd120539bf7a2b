// The keyword table of the shell and its lookup (bin/csh/init.c: srchn,
// bin/csh/func.c: srchx).
module Keywords {
  import opened Shared

  datatype Token =
    | T_LET | T_BREAK | T_BRKSW | T_CASE | T_DEFAULT | T_ELSE | T_END | T_ENDIF | T_ENDSW
    | T_EXIT | T_FOREACH | T_GOTO | T_IF | T_LABEL | T_SET | T_SWITCH | T_WHILE

  // Sorted by name, as the binary search wants.
  const srchn: seq<(string, Token)> := [
    ("@", T_LET), ("break", T_BREAK), ("breaksw", T_BRKSW), ("case", T_CASE),
    ("default", T_DEFAULT), ("else", T_ELSE), ("end", T_END), ("endif", T_ENDIF),
    ("endsw", T_ENDSW), ("exit", T_EXIT), ("foreach", T_FOREACH), ("goto", T_GOTO),
    ("if", T_IF), ("label", T_LABEL), ("set", T_SET), ("switch", T_SWITCH), ("while", T_WHILE)]

  // The token of a word, None for a word that is no keyword.
  function Keyword(w: string): Option<Token> {
    if w == "@" then Some(T_LET)
    else if w == "break" then Some(T_BREAK)
    else if w == "breaksw" then Some(T_BRKSW)
    else if w == "case" then Some(T_CASE)
    else if w == "default" then Some(T_DEFAULT)
    else if w == "else" then Some(T_ELSE)
    else if w == "end" then Some(T_END)
    else if w == "endif" then Some(T_ENDIF)
    else if w == "endsw" then Some(T_ENDSW)
    else if w == "exit" then Some(T_EXIT)
    else if w == "foreach" then Some(T_FOREACH)
    else if w == "goto" then Some(T_GOTO)
    else if w == "if" then Some(T_IF)
    else if w == "label" then Some(T_LABEL)
    else if w == "set" then Some(T_SET)
    else if w == "switch" then Some(T_SWITCH)
    else if w == "while" then Some(T_WHILE)
    else None
  }

  // Strcmp: the sign of the first difference, the end of a string before everything.
  function StrCmp(a: string, b: string): int {
    if a == "" && b == "" then 0
    else if a == "" then -1
    else if b == "" then 1
    else if a[0] == b[0] then StrCmp(a[1..], b[1..])
    else a[0] as int - b[0] as int
  }

  predicate Less(a: string, b: string) {
    StrCmp(a, b) < 0
  }

  lemma {:induction false} CmpSides(a: string, b: string)
    ensures StrCmp(a, b) == 0 <==> a == b
    ensures StrCmp(a, b) < 0 <==> StrCmp(b, a) > 0
  {
    if a != "" && b != "" {
      if a[0] == b[0] {
        CmpSides(a[1..], b[1..]);
        assert a == [a[0]] + a[1..] && b == [b[0]] + b[1..];
      }
    }
  }

  lemma {:induction false} LessTransitive(a: string, b: string, c: string)
    requires Less(a, b) && Less(b, c)
    ensures Less(a, c)
  {
    if a != "" && b != "" && c != "" && a[0] == b[0] == c[0] {
      LessTransitive(a[1..], b[1..], c[1..]);
    }
  }

  // The table is sorted.
  lemma TableSorted(i: nat)
    requires i + 1 < |srchn|
    ensures Less(srchn[i].0, srchn[i + 1].0)
  {
    assert |srchn| == 17;
    if i < 6 { SortedFirst(i); } else if i < 11 { SortedSecond(i); } else { SortedThird(i); }
  }

  lemma SortedFirst(i: nat)
    requires i < 6
    ensures Less(srchn[i].0, srchn[i + 1].0)
  {
    assert StrCmp("@", "break") < 0;
    assert StrCmp("break", "breaksw") < 0;
    assert StrCmp("breaksw", "case") < 0;
    assert StrCmp("case", "default") < 0;
    assert StrCmp("default", "else") < 0;
    assert StrCmp("else", "end") < 0;
  }

  lemma SortedSecond(i: nat)
    requires 6 <= i < 11
    ensures Less(srchn[i].0, srchn[i + 1].0)
  {
    assert StrCmp("end", "endif") < 0;
    assert StrCmp("endif", "endsw") < 0;
    assert StrCmp("endsw", "exit") < 0;
    assert StrCmp("exit", "foreach") < 0;
    assert StrCmp("foreach", "goto") < 0;
  }

  lemma SortedThird(i: nat)
    requires 11 <= i < 16
    ensures Less(srchn[i].0, srchn[i + 1].0)
  {
    assert StrCmp("goto", "if") < 0;
    assert StrCmp("if", "label") < 0;
    assert StrCmp("label", "set") < 0;
    assert StrCmp("set", "switch") < 0;
    assert StrCmp("switch", "while") < 0;
  }

  type Table = seq<(string, Token)>

  predicate Sorted(table: Table) {
    forall i, j :: 0 <= i < j < |table| ==> Less(table[i].0, table[j].0)
  }

  lemma {:induction false} SortedApart(i: nat, j: nat)
    requires i < j < |srchn|
    ensures Less(srchn[i].0, srchn[j].0)
    decreases j
  {
    TableSorted(j - 1);
    if i < j - 1 {
      SortedApart(i, j - 1);
      LessTransitive(srchn[i].0, srchn[j - 1].0, srchn[j].0);
    }
  }

  // What a table says of a word.
  predicate Names(table: Table, w: string, r: Option<Token>) {
    match r
    case Some(t) => (w, t) in table
    case None => forall k :: 0 <= k < |table| ==> table[k].0 != w
  }

  // The keywords are the names in the table.
  lemma KeywordInTable(w: string, r: Option<Token>)
    requires Names(srchn, w, r)
    ensures Keyword(w) == r
  {
    if r == None {
      assert |srchn| == 17;
      NotFirst(w);
      NotLast(w);
    }
  }

  lemma NotFirst(w: string)
    requires Names(srchn, w, None)
    ensures w != "@" && w != "break" && w != "breaksw" && w != "case" && w != "default" && w != "else"
    ensures w != "end" && w != "endif"
  {
    assert srchn[0].0 != w && srchn[1].0 != w && srchn[2].0 != w && srchn[3].0 != w;
    assert srchn[4].0 != w && srchn[5].0 != w && srchn[6].0 != w && srchn[7].0 != w;
  }

  lemma NotLast(w: string)
    requires Names(srchn, w, None)
    ensures w != "endsw" && w != "exit" && w != "foreach" && w != "goto" && w != "if" && w != "label" && w != "set"
    ensures w != "switch" && w != "while"
  {
    assert srchn[8].0 != w && srchn[9].0 != w && srchn[10].0 != w && srchn[11].0 != w;
    assert srchn[12].0 != w && srchn[13].0 != w && srchn[14].0 != w && srchn[15].0 != w && srchn[16].0 != w;
  }

  // The comparison of the search, which looks at the first characters before all of them.
  function Compared(cp: string, name: string): int {
    if First(cp) != First(name) then First(cp) as int - First(name) as int else StrCmp(cp, name)
  }

  lemma ComparedIsOrder(cp: string, name: string)
    requires name != "" && name[0] != '\0'
    ensures Compared(cp, name) == 0 <==> cp == name
    ensures Compared(cp, name) < 0 <==> Less(cp, name)
    ensures Compared(cp, name) > 0 <==> Less(name, cp)
  {
    CmpSides(cp, name);
    CmpSides(name, cp);
  }

  lemma OutOfRange(table: Table, sp: nat, cp: string)
    requires Sorted(table) && sp < |table|
    ensures Less(cp, table[sp].0) ==> forall k :: sp <= k < |table| ==> Less(cp, table[k].0)
    ensures Less(table[sp].0, cp) ==> forall k :: 0 <= k <= sp ==> Less(table[k].0, cp)
  {
    if Less(cp, table[sp].0) {
      forall k | sp < k < |table| ensures Less(cp, table[k].0) { LessTransitive(cp, table[sp].0, table[k].0); }
    }
    if Less(table[sp].0, cp) {
      forall k | 0 <= k < sp ensures Less(table[k].0, cp) { LessTransitive(table[k].0, table[sp].0, cp); }
    }
  }

  // Binary search between lo and hi.
  method SearchTable(table: Table, cp: string) returns (r: Option<Token>)
    requires Sorted(table) && forall k :: 0 <= k < |table| ==> table[k].0 != "" && table[k].0[0] != '\0'
    ensures Names(table, cp, r)
  {
    var lo, hi := 0, |table|;
    while lo < hi
      invariant 0 <= lo <= hi <= |table|
      invariant forall k :: 0 <= k < lo ==> Less(table[k].0, cp)
      invariant forall k :: hi <= k < |table| ==> Less(cp, table[k].0)
    {
      var sp := lo + (hi - lo) / 2;
      var name := table[sp].0;
      ComparedIsOrder(cp, name);
      OutOfRange(table, sp, cp);
      var i := First(cp) as int - First(name) as int;
      if i == 0 {
        i := StrCmp(cp, name);
        if i == 0 {
          return Some(table[sp].1);
        }
      }
      if i < 0 {
        hi := sp;
      } else {
        lo := sp + 1;
      }
    }
    forall k | 0 <= k < |table| ensures table[k].0 != cp {
      CmpSides(cp, table[k].0);
    }
    r := None;
  }

  // The search finds exactly the keywords.
  method Srchx(cp: string) returns (r: Option<Token>)
    ensures r == Keyword(cp)
  {
    forall i, j | 0 <= i < j < |srchn| ensures Less(srchn[i].0, srchn[j].0) {
      SortedApart(i, j);
    }
    r := SearchTable(srchn, cp);
    KeywordInTable(cp, r);
  }
}

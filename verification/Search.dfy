// The scanner for the other end of a control structure (bin/csh/func.c: search), over the
// lines of a script taken apart into words.
module Search {
  import opened Shared
  import opened Keywords

  // A line as the search sees it: the token of its first word, whether its last word is
  // then, whether it is a case with the value looked for, whether it carries the label
  // looked for, and whether its first word is the label of a default.
  datatype Mark = Mark(token: Option<Token>, then_: bool, value: bool, labelled: bool, default_: bool)

  type Script = seq<Mark>

  // What is looked for, the value of a switch being a test on words.
  datatype Aim = Aim(type_: Token, goal: string, hits: string -> bool)

  predicate Aims(type_: Token) {
    type_ == T_BREAK || type_ == T_ELSE || type_ == T_GOTO || type_ == T_IF || type_ == T_BRKSW || type_ == T_SWITCH
  }

  // The nesting of what is looked for, of loops, and how many loops are still open outside.
  datatype State = State(level: int, wlevel: int, whyles: nat)

  // The first word of a line, empty for a blank line.
  function Head(line: seq<string>): string {
    if line == [] then "" else line[0]
  }

  function LastChr(w: string): char {
    if w == "" then '\0' else w[|w| - 1]
  }

  function Unlabel(w: string): string {
    if LastChr(w) == ':' then w[..|w| - 1] else w
  }

  function MarkOf(aim: Aim, line: seq<string>): Mark {
    var head := Head(line);
    Mark(
      Keyword(head),
      line != [] && line[|line| - 1] == "then",
      aim.hits(Unlabel(if |line| > 1 then line[1] else head)),
      if Keyword(head) == Some(T_LABEL) then |line| > 1 && line[1] == aim.goal
      else LastChr(head) == ':' && Unlabel(head) == aim.goal,
      LastChr(head) == ':' && Unlabel(head) == "default")
  }

  function Marks(aim: Aim, lines: seq<seq<string>>): Script {
    seq(|lines|, i requires 0 <= i < |lines| => MarkOf(aim, lines[i]))
  }

  // An else that belongs to the if looked at ends the search in the middle of its line.
  predicate StopsInLine(type_: Token, line: Mark, level: int) {
    line.token == Some(T_ELSE) && level == 0 && type_ == T_IF
  }

  predicate SwitchLevel(type_: Token, level: int) {
    type_ == T_SWITCH && level == 0
  }

  // One round of the loop for the level.
  function Level(type_: Token, line: Mark, level: int): int {
    match line.token
    case Some(T_CASE) => if SwitchLevel(type_, level) && line.value then -1 else level
    case Some(T_DEFAULT) => if SwitchLevel(type_, level) then -1 else level
    case Some(T_ELSE) => level
    case Some(T_END) => if type_ == T_BREAK then level - 1 else level
    case Some(T_ENDIF) => if type_ == T_IF || type_ == T_ELSE then level - 1 else level
    case Some(T_ENDSW) => if type_ == T_SWITCH || type_ == T_BRKSW then level - 1 else level
    case Some(T_IF) => if (type_ == T_IF || type_ == T_ELSE) && line.then_ then level + 1 else level
    case Some(T_LABEL) => if type_ == T_GOTO && line.labelled then -1 else level
    case Some(T_SWITCH) => if type_ == T_SWITCH || type_ == T_BRKSW then level + 1 else level
    case Some(T_FOREACH) => if type_ == T_BREAK then level + 1 else level
    case Some(T_WHILE) => if type_ == T_BREAK then level + 1 else level
    case _ => if (type_ == T_GOTO && line.labelled) || (SwitchLevel(type_, level) && line.default_) then -1 else level
  }

  function Step(type_: Token, line: Mark, s: State): State {
    State(
      Level(type_, line, s.level),
      if line.token == Some(T_END) then s.wlevel - 1
      else if line.token == Some(T_FOREACH) || line.token == Some(T_WHILE) then s.wlevel + 1 else s.wlevel,
      if line.token == Some(T_END) && type_ == T_BRKSW && s.wlevel == 0 && s.whyles > 0 then s.whyles - 1 else s.whyles)
  }

  // The line the search ends in and how many loops are then open; None at the end of the
  // script.
  datatype Stop = Stop(at: nat, whyles: nat)

  function SearchFrom(type_: Token, script: Script, i: nat, s: State): Option<Stop>
    requires i <= |script|
    decreases |script| - i
  {
    if i == |script| then None
    else if StopsInLine(type_, script[i], s.level) then Some(Stop(i, s.whyles))
    else
      var next := Step(type_, script[i], s);
      if next.level < 0 then Some(Stop(i, next.whyles)) else SearchFrom(type_, script, i + 1, next)
  }

  // ----- scripts in which structures are nested -----

  datatype Kind = LoopKind | IfKind | SwitchKind

  datatype Stmt = Plain(line: Mark) | Nested(kind: Kind, head: Mark, body: Block, tail: Mark)

  datatype Block = Nil | Cons(stmt: Stmt, more: Block)

  predicate Opens(kind: Kind, line: Mark) {
    match kind
    case LoopKind => line.token == Some(T_FOREACH) || line.token == Some(T_WHILE)
    case IfKind => line.token == Some(T_IF) && line.then_
    case SwitchKind => line.token == Some(T_SWITCH)
  }

  predicate Closes(kind: Kind, line: Mark) {
    match kind
    case LoopKind => line.token == Some(T_END)
    case IfKind => line.token == Some(T_ENDIF)
    case SwitchKind => line.token == Some(T_ENDSW)
  }

  predicate Structural(line: Mark) {
    Opens(LoopKind, line) || Opens(IfKind, line) || Opens(SwitchKind, line)
    || Closes(LoopKind, line) || Closes(IfKind, line) || Closes(SwitchKind, line)
  }

  predicate WellNested(b: Block) {
    b.Cons? ==> WellFormed(b.stmt) && WellNested(b.more)
  }

  predicate WellFormed(stmt: Stmt) {
    match stmt
    case Plain(line) => !Structural(line)
    case Nested(kind, head, body, tail) => Opens(kind, head) && Closes(kind, tail) && WellNested(body)
  }

  function Lines(b: Block): Script {
    if b.Nil? then [] else LinesOf(b.stmt) + Lines(b.more)
  }

  function LinesOf(stmt: Stmt): Script {
    match stmt
    case Plain(line) => [line]
    case Nested(_, head, body, tail) => [head] + (Lines(body) + [tail])
  }

  // The structure whose other end is looked for.
  predicate Counts(type_: Token, kind: Kind) {
    match kind
    case LoopKind => type_ == T_BREAK
    case IfKind => type_ == T_IF || type_ == T_ELSE
    case SwitchKind => type_ == T_SWITCH || type_ == T_BRKSW
  }

  // A plain line at nesting zero the search passes over.
  predicate Passed(type_: Token, line: Mark) {
    !StopsInLine(type_, line, 0) && Level(type_, line, 0) == 0
  }

  // No line ends the search: those inside a structure of the kind looked for are free, and
  // so are all below some level.
  predicate Silent(type_: Token, b: Block, deep: bool) {
    b.Cons? ==> SilentStmt(type_, b.stmt, deep) && Silent(type_, b.more, deep)
  }

  predicate SilentStmt(type_: Token, stmt: Stmt, deep: bool) {
    match stmt
    case Plain(line) => deep || Passed(type_, line)
    case Nested(kind, _, body, _) => Silent(type_, body, deep || Counts(type_, kind))
  }

  lemma PlainStep(type_: Token, line: Mark, s: State)
    requires Aims(type_) && type_ != T_GOTO && !Structural(line) && s.level >= 0
    requires s.level > 0 || Passed(type_, line)
    ensures !StopsInLine(type_, line, s.level) && Step(type_, line, s) == s
  {
  }

  lemma OpenStep(type_: Token, kind: Kind, line: Mark, s: State)
    requires Aims(type_) && type_ != T_GOTO && Opens(kind, line)
    ensures !StopsInLine(type_, line, s.level)
    ensures Step(type_, line, s) ==
            State(s.level + (if Counts(type_, kind) then 1 else 0),
                  s.wlevel + (if kind == LoopKind then 1 else 0), s.whyles)
  {
  }

  lemma CloseStep(type_: Token, kind: Kind, line: Mark, s: State)
    requires Aims(type_) && type_ != T_GOTO && Closes(kind, line)
    ensures !StopsInLine(type_, line, s.level)
    ensures kind != LoopKind || s.wlevel != 0 ==>
              Step(type_, line, s) ==
              State(s.level - (if Counts(type_, kind) then 1 else 0),
                    s.wlevel - (if kind == LoopKind then 1 else 0), s.whyles)
  {
  }

  // The lines of a block stand in the script at i.
  predicate Stands(script: Script, i: nat, lines: Script) {
    i + |lines| <= |script| && forall k :: i <= k < i + |lines| ==> script[k] == lines[k - i]
  }

  lemma StandsApart(script: Script, i: nat, a: Script, b: Script)
    requires Stands(script, i, a + b)
    ensures Stands(script, i, a) && Stands(script, i + |a|, b)
  {
  }

  // A place in a search.
  predicate Place(i: nat, s: State) {
    i >= 0
  }

  // What is reached from a place is what is reached behind a line that is passed over.
  ghost predicate GoesOn(run: (nat, State) -> Option<Stop>, type_: Token, script: Script) {
    forall i: nat, s: State {:trigger Place(i, s)} ::
      Place(i, s) && i < |script| && !StopsInLine(type_, script[i], s.level) && Step(type_, script[i], s).level >= 0 ==>
        run(i, s) == run(i + 1, Step(type_, script[i], s))
  }

  lemma PassPlain(run: (nat, State) -> Option<Stop>, type_: Token, script: Script, i: nat, line: Mark, s: State)
    requires GoesOn(run, type_, script) && Stands(script, i, [line])
    requires Aims(type_) && type_ != T_GOTO && !Structural(line) && s.level >= 0 && (s.level > 0 || Passed(type_, line))
    ensures run(i, s) == run(i + 1, s)
  {
    assert script[i] == line && Place(i, s);
    PlainStep(type_, line, s);
  }

  function Inside(type_: Token, kind: Kind, s: State): State {
    State(s.level + (if Counts(type_, kind) then 1 else 0), s.wlevel + (if kind == LoopKind then 1 else 0), s.whyles)
  }

  lemma PassOpen(run: (nat, State) -> Option<Stop>, type_: Token, script: Script, i: nat, kind: Kind,
          line: Mark, s: State)
    requires GoesOn(run, type_, script) && Stands(script, i, [line])
    requires Aims(type_) && type_ != T_GOTO && Opens(kind, line) && s.level >= 0
    ensures run(i, s) == run(i + 1, Inside(type_, kind, s))
  {
    assert script[i] == line && Place(i, s);
    OpenStep(type_, kind, line, s);
  }

  lemma PassClose(run: (nat, State) -> Option<Stop>, type_: Token, script: Script, i: nat, kind: Kind,
          line: Mark, s: State)
    requires GoesOn(run, type_, script) && Stands(script, i, [line])
    requires Aims(type_) && type_ != T_GOTO && Closes(kind, line) && s.level >= 0 && s.wlevel >= 0
    ensures run(i, Inside(type_, kind, s)) == run(i + 1, s)
  {
    assert script[i] == line && Place(i, Inside(type_, kind, s));
    CloseStep(type_, kind, line, Inside(type_, kind, s));
  }

  // A well nested block in which nothing ends the search is passed over whole, and leaves
  // the search as it was.
  lemma {:induction false} PassBlock(run: (nat, State) -> Option<Stop>, type_: Token, script: Script, i: nat,
          b: Block, s: State)
    requires GoesOn(run, type_, script) && Aims(type_) && type_ != T_GOTO
    requires WellNested(b) && Stands(script, i, Lines(b))
    requires s.level >= 0 && s.wlevel >= 0 && Silent(type_, b, s.level > 0)
    ensures run(i, s) == run(i + |Lines(b)|, s)
    decreases b
  {
    if b.Cons? {
      var j := i + |LinesOf(b.stmt)|;
      StandsApart(script, i, LinesOf(b.stmt), Lines(b.more));
      PassStmt(run, type_, script, i, b.stmt, s);
      PassBlock(run, type_, script, j, b.more, s);
    }
  }

  lemma {:induction false} PassStmt(run: (nat, State) -> Option<Stop>, type_: Token, script: Script, i: nat,
          stmt: Stmt, s: State)
    requires GoesOn(run, type_, script) && Aims(type_) && type_ != T_GOTO
    requires WellFormed(stmt) && Stands(script, i, LinesOf(stmt))
    requires s.level >= 0 && s.wlevel >= 0 && SilentStmt(type_, stmt, s.level > 0)
    ensures run(i, s) == run(i + |LinesOf(stmt)|, s)
    decreases stmt, 1
  {
    match stmt {
      case Plain(line) =>
        PassPlain(run, type_, script, i, line, s);
      case Nested(_, _, _, _) =>
        PassNested(run, type_, script, i, stmt, s);
    }
  }

  lemma {:induction false} PassNested(run: (nat, State) -> Option<Stop>, type_: Token, script: Script, i: nat,
          stmt: Stmt, s: State)
    requires GoesOn(run, type_, script) && Aims(type_) && type_ != T_GOTO
    requires stmt.Nested? && WellFormed(stmt) && Stands(script, i, LinesOf(stmt))
    requires s.level >= 0 && s.wlevel >= 0 && SilentStmt(type_, stmt, s.level > 0)
    ensures run(i, s) == run(i + |LinesOf(stmt)|, s)
    decreases stmt, 0
  {
    var body := Lines(stmt.body);
    NestedStands(script, i, stmt.head, body, stmt.tail);
    PassOpen(run, type_, script, i, stmt.kind, stmt.head, s);
    PassBlock(run, type_, script, i + 1, stmt.body, Inside(type_, stmt.kind, s));
    PassClose(run, type_, script, i + 1 + |body|, stmt.kind, stmt.tail, s);
  }

  lemma NestedStands(script: Script, i: nat, head: Mark, body: Script, tail: Mark)
    requires Stands(script, i, [head] + (body + [tail]))
    ensures Stands(script, i, [head]) && Stands(script, i + 1, body) && Stands(script, i + 1 + |body|, [tail])
  {
    StandsApart(script, i, [head], body + [tail]);
    StandsApart(script, i + 1, body, [tail]);
  }

  function Searching(type_: Token, script: Script): (nat, State) -> Option<Stop> {
    (i: nat, s: State) => if i <= |script| then SearchFrom(type_, script, i, s) else None
  }

  lemma SearchGoesOn(type_: Token, script: Script)
    ensures GoesOn(Searching(type_, script), type_, script)
  {
  }

  // The lines that end the search at nesting zero, for each thing looked for.
  predicate EndsSearch(type_: Token, line: Mark) {
    match type_
    case T_BREAK => line.token == Some(T_END)
    case T_ELSE => line.token == Some(T_ENDIF)
    case T_IF => line.token == Some(T_ENDIF) || line.token == Some(T_ELSE)
    case T_BRKSW => line.token == Some(T_ENDSW)
    case T_SWITCH =>
      line.token == Some(T_ENDSW) || line.token == Some(T_DEFAULT) || (line.token == Some(T_CASE) && line.value)
      || (line.token == None && line.default_)
    case _ => false
  }

  // A line as words give it: a word that ends with a colon is no keyword.
  predicate Read(line: Mark) {
    (line.default_ ==> line.token == None)
    && (line.labelled ==> line.token == None || line.token == Some(T_LABEL))
  }

  // These are the lines at which a round of the loop leaves it.
  lemma EndingLines(type_: Token, line: Mark)
    requires Aims(type_) && type_ != T_GOTO && Read(line)
    ensures EndsSearch(type_, line) <==> StopsInLine(type_, line, 0) || Level(type_, line, 0) < 0
  {
  }

  // The label of a default is never taken for a keyword, and neither is a label with a colon.
  lemma DefaultIsNoKeyword(aim: Aim, line: seq<string>)
    ensures Read(MarkOf(aim, line))
  {
    var w := Head(line);
    if LastChr(w) == ':' { assert w[|w| - 1] == ':'; }
  }

  lemma MarksAreRead(aim: Aim, lines: seq<seq<string>>)
    ensures forall k :: 0 <= k < |lines| ==> Read(Marks(aim, lines)[k])
  {
    forall k | 0 <= k < |lines| ensures Read(Marks(aim, lines)[k]) {
      DefaultIsNoKeyword(aim, lines[k]);
    }
  }

  // ----- every script -----

  // What a line adds to the nesting of the structure looked for.
  function Turn(type_: Token, line: Mark): int {
    if exists kind :: Counts(type_, kind) && Opens(kind, line) then 1
    else if exists kind :: Counts(type_, kind) && Closes(kind, line) then -1
    else 0
  }

  // The nesting of line j as seen from line i.
  function Depth(type_: Token, script: Script, i: nat, j: nat): int
    requires i <= j <= |script|
    decreases j - i
  {
    if i == j then 0 else Turn(type_, script[i]) + Depth(type_, script, i + 1, j)
  }

  // Line j ends a search that enters line i at some nesting.
  predicate EndsAt(type_: Token, script: Script, i: nat, j: nat, level: int)
    requires i <= j < |script|
  {
    level + Depth(type_, script, i, j) == 0 && EndsSearch(type_, script[j])
  }

  // A round of the loop leaves it at a line that ends the search, and else keeps the nesting.
  lemma TurnStep(type_: Token, line: Mark, s: State)
    requires Aims(type_) && type_ != T_GOTO && Read(line) && s.level >= 0
    ensures (StopsInLine(type_, line, s.level) || Step(type_, line, s).level < 0) <==>
            (s.level == 0 && EndsSearch(type_, line))
    ensures !(s.level == 0 && EndsSearch(type_, line)) ==> Step(type_, line, s).level == s.level + Turn(type_, line)
    ensures type_ != T_BRKSW ==> Step(type_, line, s).whyles == s.whyles
  {
    assert Counts(type_, LoopKind) <==> type_ == T_BREAK;
    assert Counts(type_, IfKind) <==> type_ == T_IF || type_ == T_ELSE;
    assert Counts(type_, SwitchKind) <==> type_ == T_SWITCH || type_ == T_BRKSW;
  }

  // In every script, well nested or not, the search stops at the first line that ends it at
  // the nesting it started from, and fails exactly when there is none.
  lemma {:induction false} EveryScript(type_: Token, script: Script, i: nat, s: State)
    requires Aims(type_) && type_ != T_GOTO && s.level >= 0 && i <= |script|
    requires forall k :: 0 <= k < |script| ==> Read(script[k])
    ensures match SearchFrom(type_, script, i, s)
            case Some(stop) =>
              i <= stop.at < |script| && EndsAt(type_, script, i, stop.at, s.level)
              && (forall k :: i <= k < stop.at ==> !EndsAt(type_, script, i, k, s.level))
              && (type_ != T_BRKSW ==> stop.whyles == s.whyles)
            case None => forall k :: i <= k < |script| ==> !EndsAt(type_, script, i, k, s.level)
    decreases |script| - i
  {
    if i < |script| {
      TurnStep(type_, script[i], s);
      if !(s.level == 0 && EndsSearch(type_, script[i])) {
        var next := Step(type_, script[i], s);
        EveryScript(type_, script, i + 1, next);
        forall k | i < k < |script|
          ensures EndsAt(type_, script, i, k, s.level) <==> EndsAt(type_, script, i + 1, k, next.level)
        {
        }
      }
    }
  }

  lemma BlockThenEnd(run: (nat, State) -> Option<Stop>, type_: Token, script: Script, i: nat, b: Block,
          end: Mark, s: State)
    requires GoesOn(run, type_, script) && Aims(type_) && type_ != T_GOTO && WellNested(b) && Silent(type_, b, false)
    requires Stands(script, i, Lines(b) + [end]) && s.level == 0 && s.wlevel >= 0
    ensures Stands(script, i + |Lines(b)|, [end]) && run(i, s) == run(i + |Lines(b)|, s)
  {
    StandsApart(script, i, Lines(b), [end]);
    PassBlock(run, type_, script, i, b, s);
  }

  lemma EndsHere(type_: Token, script: Script, i: nat, end: Mark, whyles: nat)
    requires Aims(type_) && type_ != T_GOTO && Stands(script, i, [end]) && EndsSearch(type_, end)
    ensures Searching(type_, script)(i, State(0, 0, whyles)) == Some(Stop(i, whyles))
  {
    assert script[i] == end;
  }

  // The search stops at the first line that belongs to the structure it is in, whatever
  // structures lie before it, and no loop outside is left.
  lemma StopsAtItsOwn(type_: Token, script: Script, i: nat, b: Block, end: Mark, whyles: nat)
    requires Aims(type_) && type_ != T_GOTO && WellNested(b) && Silent(type_, b, false)
    requires Stands(script, i, Lines(b) + [end]) && EndsSearch(type_, end)
    ensures SearchFrom(type_, script, i, State(0, 0, whyles)) == Some(Stop(i + |Lines(b)|, whyles))
  {
    var s := State(0, 0, whyles);
    var r := Stops(type_, script, i, b, end, s);
    assert r == Searching(type_, script)(i, s);
  }

  lemma Stops(type_: Token, script: Script, i: nat, b: Block, end: Mark, s: State) returns (r: Option<Stop>)
    requires Aims(type_) && type_ != T_GOTO && WellNested(b) && Silent(type_, b, false) && s == State(0, 0, s.whyles)
    requires Stands(script, i, Lines(b) + [end]) && EndsSearch(type_, end)
    ensures r == Searching(type_, script)(i, s) && r == Some(Stop(i + |Lines(b)|, s.whyles))
  {
    var run, j := Searching(type_, script), i + |Lines(b)|;
    StandsApart(script, i, Lines(b), [end]);
    EndsHere(type_, script, j, end, s.whyles);
    SearchGoesOn(type_, script);
    BlockThenEnd(run, type_, script, i, b, end, s);
    r := run(i, s);
  }

  // Nothing but an else, a case or a default can end the search within a well nested block,
  // so break and else pass over every one.
  lemma {:induction false} AlwaysSilent(type_: Token, b: Block, deep: bool)
    requires Aims(type_) && (type_ == T_BREAK || type_ == T_ELSE || type_ == T_BRKSW) && WellNested(b)
    ensures Silent(type_, b, deep)
    decreases b
  {
    if b.Cons? {
      match b.stmt {
        case Plain(line) => PlainPassed(type_, line);
        case Nested(kind, _, body, _) => AlwaysSilent(type_, body, deep || Counts(type_, kind));
      }
      AlwaysSilent(type_, b.more, deep);
    }
  }

  lemma PlainPassed(type_: Token, line: Mark)
    requires Aims(type_) && (type_ == T_BREAK || type_ == T_ELSE || type_ == T_BRKSW) && !Structural(line)
    ensures Passed(type_, line)
  {
  }

  // For goto the nesting does not matter. A line with the label is the keyword and the
  // label, or a word that is the label and a colon.
  predicate HasLabel(aim: Aim, line: seq<string>) {
    (Head(line) == "label" && |line| > 1 && line[1] == aim.goal) || Head(line) == aim.goal + ":"
  }

  lemma LabelIsMarked(aim: Aim, line: seq<string>)
    ensures HasLabel(aim, line) <==> MarkOf(aim, line).labelled
  {
    var w, g := Head(line), aim.goal;
    assert w != "" ==> w == w[..|w| - 1] + [w[|w| - 1]];
    assert (g + ":")[..|g|] == g;
    assert Keyword(w) == Some(T_LABEL) <==> w == "label";
    DefaultIsNoKeyword(aim, line);
  }

  lemma LabelStep(type_: Token, line: Mark, s: State)
    requires type_ == T_GOTO && Read(line) && s.level >= 0
    ensures Step(type_, line, s).whyles == s.whyles && !StopsInLine(type_, line, s.level)
    ensures Step(type_, line, s).level == if line.labelled then -1 else s.level
  {
  }

  lemma {:induction false} FirstLabelled(type_: Token, script: Script, i: nat, s: State)
    requires type_ == T_GOTO && s.level >= 0 && i <= |script|
    requires forall k :: 0 <= k < |script| ==> Read(script[k])
    ensures match SearchFrom(type_, script, i, s)
            case Some(stop) =>
              i <= stop.at < |script| && script[stop.at].labelled && stop.whyles == s.whyles
              && forall k :: i <= k < stop.at ==> !script[k].labelled
            case None => forall k :: i <= k < |script| ==> !script[k].labelled
    decreases |script| - i
  {
    if i < |script| {
      LabelStep(type_, script[i], s);
      if !script[i].labelled { FirstLabelled(type_, script, i + 1, Step(type_, script[i], s)); }
    }
  }

  // Goto stops at the first line with the label, whatever the nesting.
  lemma GotoFindsLabel(aim: Aim, lines: seq<seq<string>>, s: State)
    requires aim.type_ == T_GOTO && s.level >= 0
    ensures match SearchFrom(aim.type_, Marks(aim, lines), 0, s)
            case Some(stop) =>
              stop.at < |lines| && HasLabel(aim, lines[stop.at]) && stop.whyles == s.whyles
              && forall k :: 0 <= k < stop.at ==> !HasLabel(aim, lines[k])
            case None => forall k :: 0 <= k < |lines| ==> !HasLabel(aim, lines[k])
  {
    var script := Marks(aim, lines);
    MarksAreRead(aim, lines);
    forall k | 0 <= k < |lines| ensures HasLabel(aim, lines[k]) <==> script[k].labelled {
      LabelIsMarked(aim, lines[k]);
    }
    FirstLabelled(aim.type_, script, 0, s);
  }

  function Bare(token: Token): Mark {
    Mark(Some(token), false, false, false, false)
  }

  // ----- the loops breaksw leaves -----

  // What a line adds to the nesting of loops.
  function Loops(line: Mark): int {
    if Opens(LoopKind, line) then 1 else if Closes(LoopKind, line) then -1 else 0
  }

  // The loops taken away between two lines: one for every end met at loop nesting zero.
  function Taken(script: Script, i: nat, j: nat, wlevel: int): nat
    requires i <= j <= |script|
    decreases j - i
  {
    if i == j then 0
    else
      (if Closes(LoopKind, script[i]) && wlevel == 0 then 1 else 0)
      + Taken(script, i + 1, j, wlevel + Loops(script[i]))
  }

  // The loops that have been left between two lines: the largest excess of ends over heads
  // in front of some line.
  function Left(script: Script, i: nat, j: nat): nat
    requires i <= j <= |script|
    decreases j - i
  {
    if i == j then 0
    else
      var more := Left(script, i + 1, j) - Loops(script[i]);
      if more > 0 then more else 0
  }

  // The excess of ends over heads.
  function Excess(script: Script, i: nat, j: nat): int
    requires i <= j <= |script|
    decreases j - i
  {
    if i == j then 0 else Excess(script, i + 1, j) - Loops(script[i])
  }

  lemma {:induction false} LeftIsLargest(script: Script, i: nat, j: nat)
    requires i <= j <= |script|
    ensures forall k :: i <= k <= j ==> Excess(script, i, k) <= Left(script, i, j)
    ensures exists k :: i <= k <= j && Excess(script, i, k) == Left(script, i, j)
    decreases j - i
  {
    if i == j {
      assert Excess(script, i, i) == Left(script, i, j);
    } else {
      LeftIsLargest(script, i + 1, j);
      var most :| i + 1 <= most <= j && Excess(script, i + 1, most) == Left(script, i + 1, j);
      assert Excess(script, i, most) == Left(script, i + 1, j) - Loops(script[i]);
      assert Excess(script, i, i) == 0;
    }
  }

  function Minus(whyles: nat, n: nat): nat {
    if n <= whyles then whyles - n else 0
  }

  lemma TakenStep(line: Mark, s: State)
    ensures var next := Step(T_BRKSW, line, s);
            && next.wlevel == s.wlevel + Loops(line)
            && next.whyles == Minus(s.whyles, if Closes(LoopKind, line) && s.wlevel == 0 then 1 else 0)
  {
  }

  // Every end met at loop nesting zero takes a loop away, as long as there is one.
  lemma {:induction false} BreakSwTakes(script: Script, i: nat, s: State)
    requires s.level >= 0 && i <= |script|
    requires forall k :: 0 <= k < |script| ==> Read(script[k])
    ensures match SearchFrom(T_BRKSW, script, i, s)
            case Some(stop) =>
              i <= stop.at < |script| && stop.whyles == Minus(s.whyles, Taken(script, i, stop.at, s.wlevel))
            case None => true
    decreases |script| - i
  {
    if i < |script| {
      TurnStep(T_BRKSW, script[i], s);
      if !(s.level == 0 && EndsSearch(T_BRKSW, script[i])) {
        var next := Step(T_BRKSW, script[i], s);
        TakenStep(script[i], s);
        BreakSwTakes(script, i + 1, next);
        var r := SearchFrom(T_BRKSW, script, i + 1, next);
        if r.Some? { TakenMore(script, i, r.value.at, s, next); }
      }
    }
  }

  lemma TakenMore(script: Script, i: nat, j: nat, s: State, next: State)
    requires i < j <= |script| && next.wlevel == s.wlevel + Loops(script[i])
    requires next.whyles == Minus(s.whyles, if Closes(LoopKind, script[i]) && s.wlevel == 0 then 1 else 0)
    ensures Minus(next.whyles, Taken(script, i + 1, j, next.wlevel)) == Minus(s.whyles, Taken(script, i, j, s.wlevel))
  {
  }

  // So breaksw takes away the loops that have been left exactly when it meets as many ends
  // at loop nesting zero, or when both are all the loops there are.
  lemma BreakSwExactly(script: Script, i: nat, whyles: nat)
    requires i <= |script| && forall k :: 0 <= k < |script| ==> Read(script[k])
    ensures match SearchFrom(T_BRKSW, script, i, State(0, 0, whyles))
            case Some(stop) =>
              i <= stop.at < |script| &&
              var left, taken := Left(script, i, stop.at), Taken(script, i, stop.at, 0);
              stop.whyles == Minus(whyles, left) <==> taken == left || (whyles <= taken && whyles <= left)
            case None => true
  {
    BreakSwTakes(script, i, State(0, 0, whyles));
  }

  // Out of two loops one is taken away; out of one loop two are, when another loop comes
  // later in the switch.
  lemma BreakSwTooFewTooMany(whyles: nat)
    requires whyles >= 2
    ensures SearchFrom(T_BRKSW, [Bare(T_END), Bare(T_END), Bare(T_ENDSW)], 0, State(0, 0, whyles))
         == Some(Stop(2, whyles - 1))
    ensures SearchFrom(T_BRKSW, [Bare(T_END), Bare(T_FOREACH), Bare(T_END), Bare(T_ENDSW)], 0, State(0, 0, whyles))
         == Some(Stop(3, whyles - 2))
  {
    var few := [Bare(T_END), Bare(T_END), Bare(T_ENDSW)];
    var many := [Bare(T_END), Bare(T_FOREACH), Bare(T_END), Bare(T_ENDSW)];
    assert SearchFrom(T_BRKSW, few, 2, State(0, -2, whyles - 1)) == Some(Stop(2, whyles - 1));
    assert SearchFrom(T_BRKSW, few, 1, State(0, -1, whyles - 1)) == Some(Stop(2, whyles - 1));
    assert SearchFrom(T_BRKSW, many, 3, State(0, -1, whyles - 2)) == Some(Stop(3, whyles - 2));
    assert SearchFrom(T_BRKSW, many, 2, State(0, 0, whyles - 1)) == Some(Stop(3, whyles - 2));
    assert SearchFrom(T_BRKSW, many, 1, State(0, -1, whyles - 1)) == Some(Stop(3, whyles - 2));
  }

  // ----- the same on the words of the lines -----

  // The label of a case, or of what else is looked at: without its colon.
  function CaseLabel(line: seq<string>): string {
    var w := if |line| > 1 then line[1] else Head(line);
    if w != "" && w[|w| - 1] == ':' then w[..|w| - 1] else w
  }

  // The lines that end a search, by their words.
  predicate LineEnds(aim: Aim, line: seq<string>) {
    var head := Head(line);
    match aim.type_
    case T_BREAK => head == "end"
    case T_ELSE => head == "endif"
    case T_IF => head == "endif" || head == "else"
    case T_BRKSW => head == "endsw"
    case T_SWITCH =>
      head == "endsw" || head == "default" || head == "default:" || (head == "case" && aim.hits(CaseLabel(line)))
    case _ => false
  }

  // What a line adds to the nesting, by its words.
  function LineTurn(type_: Token, line: seq<string>): int {
    var head := Head(line);
    if type_ == T_BREAK then if head == "foreach" || head == "while" then 1 else if head == "end" then -1 else 0
    else if type_ == T_IF || type_ == T_ELSE then
      if head == "if" && line[|line| - 1] == "then" then 1 else if head == "endif" then -1 else 0
    else if head == "switch" then 1 else if head == "endsw" then -1 else 0
  }

  function LineDepth(type_: Token, lines: seq<seq<string>>, i: nat, j: nat): int
    requires i <= j <= |lines|
    decreases j - i
  {
    if i == j then 0 else LineTurn(type_, lines[i]) + LineDepth(type_, lines, i + 1, j)
  }

  // The mark of a line says which keyword it begins with.
  predicate Says(m: Mark, head: string) {
    && (m.token == Some(T_END) <==> head == "end") && (m.token == Some(T_ENDIF) <==> head == "endif")
    && (m.token == Some(T_ELSE) <==> head == "else") && (m.token == Some(T_ENDSW) <==> head == "endsw")
    && (m.token == Some(T_DEFAULT) <==> head == "default") && (m.token == Some(T_CASE) <==> head == "case")
  }

  predicate SaysOpening(m: Mark, head: string) {
    && (m.token == Some(T_FOREACH) <==> head == "foreach") && (m.token == Some(T_WHILE) <==> head == "while")
    && (m.token == Some(T_IF) <==> head == "if") && (m.token == Some(T_SWITCH) <==> head == "switch")
  }

  lemma MarkSays(m: Mark, head: string)
    requires m.token == Keyword(head)
    ensures Says(m, head) && SaysOpening(m, head)
  {
  }

  lemma LineEndsIs(aim: Aim, line: seq<string>)
    requires Aims(aim.type_) && aim.type_ != T_GOTO
    ensures EndsSearch(aim.type_, MarkOf(aim, line)) <==> LineEnds(aim, line)
  {
    var m := MarkOf(aim, line);
    MarkSays(m, Head(line));
    DefaultIsNoKeyword(aim, line);
    ColonIs(Head(line), "default");
    assert Unlabel(if |line| > 1 then line[1] else Head(line)) == CaseLabel(line);
    EndsBySaying(aim, line, m);
  }

  lemma EndsBySaying(aim: Aim, line: seq<string>, m: Mark)
    requires Aims(aim.type_) && aim.type_ != T_GOTO && Says(m, Head(line)) && Read(m)
    requires m.value == aim.hits(CaseLabel(line)) && (m.default_ <==> Head(line) == "default" + ":")
    ensures EndsSearch(aim.type_, m) <==> LineEnds(aim, line)
  {
    assert "default" + ":" == "default:";
  }

  // A word that is a name and a colon.
  lemma ColonIs(w: string, name: string)
    ensures LastChr(w) == ':' && Unlabel(w) == name <==> w == name + ":"
  {
    assert w != "" ==> w == w[..|w| - 1] + [w[|w| - 1]];
    assert (name + ":")[..|name|] == name;
  }

  lemma LineTurnIs(aim: Aim, line: seq<string>)
    requires Aims(aim.type_) && aim.type_ != T_GOTO
    ensures Turn(aim.type_, MarkOf(aim, line)) == LineTurn(aim.type_, line)
    ensures Loops(MarkOf(aim, line)) == LineTurn(T_BREAK, line)
  {
    var m := MarkOf(aim, line);
    MarkSays(m, Head(line));
    TurnsBySaying(aim.type_, line, m);
  }

  lemma TurnsBySaying(type_: Token, line: seq<string>, m: Mark)
    requires Aims(type_) && type_ != T_GOTO && Says(m, Head(line)) && SaysOpening(m, Head(line))
    requires m.then_ <==> line != [] && line[|line| - 1] == "then"
    ensures Turn(type_, m) == LineTurn(type_, line)
    ensures Loops(m) == LineTurn(T_BREAK, line)
  {
    assert Counts(type_, LoopKind) <==> type_ == T_BREAK;
    assert Counts(type_, IfKind) <==> type_ == T_IF || type_ == T_ELSE;
    assert Counts(type_, SwitchKind) <==> type_ == T_SWITCH || type_ == T_BRKSW;
  }

  lemma {:induction false} LineDepthIs(aim: Aim, lines: seq<seq<string>>, i: nat, j: nat)
    requires Aims(aim.type_) && aim.type_ != T_GOTO && i <= j <= |lines|
    ensures Depth(aim.type_, Marks(aim, lines), i, j) == LineDepth(aim.type_, lines, i, j)
    decreases j - i
  {
    if i < j {
      LineTurnIs(aim, lines[i]);
      LineDepthIs(aim, lines, i + 1, j);
    }
  }

  predicate LineEndsAt(aim: Aim, lines: seq<seq<string>>, i: nat, j: nat, level: int)
    requires i <= j < |lines|
  {
    level + LineDepth(aim.type_, lines, i, j) == 0 && LineEnds(aim, lines[j])
  }

  // On the words of every script: the first line that ends the search at the nesting it
  // started from.
  lemma EveryLine(aim: Aim, lines: seq<seq<string>>, i: nat, s: State)
    requires Aims(aim.type_) && aim.type_ != T_GOTO && s.level >= 0 && i <= |lines|
    ensures match SearchFrom(aim.type_, Marks(aim, lines), i, s)
            case Some(stop) =>
              i <= stop.at < |lines| && LineEndsAt(aim, lines, i, stop.at, s.level)
              && forall k :: i <= k < stop.at ==> !LineEndsAt(aim, lines, i, k, s.level)
            case None => forall k :: i <= k < |lines| ==> !LineEndsAt(aim, lines, i, k, s.level)
  {
    var script := Marks(aim, lines);
    MarksAreRead(aim, lines);
    forall k | i <= k < |lines|
      ensures EndsAt(aim.type_, script, i, k, s.level) <==> LineEndsAt(aim, lines, i, k, s.level)
    {
      LineDepthIs(aim, lines, i, k);
      LineEndsIs(aim, lines[k]);
    }
    EveryScript(aim.type_, script, i, s);
  }

  // One round of the loop on the words of a line.
  method Round(aim: Aim, line: seq<string>, s: State) returns (next: State)
    requires Aims(aim.type_) && !StopsInLine(aim.type_, MarkOf(aim, line), s.level)
    ensures next == Step(aim.type_, MarkOf(aim, line), s)
  {
    var type_, level, wlevel, whyles := aim.type_, s.level, s.wlevel, s.whyles;
    var aword := Head(line);
    match Keyword(aword) {
      case Some(T_CASE) =>
        if type_ == T_SWITCH && level == 0 {
          var value := if |line| > 1 then line[1] else aword;
          if aim.hits(Unlabel(value)) {
            level := -1;
          }
        }
      case Some(T_DEFAULT) =>
        if type_ == T_SWITCH && level == 0 {
          level := -1;
        }
      case Some(T_ELSE) =>
      case Some(T_END) =>
        if type_ == T_BRKSW && wlevel == 0 && whyles > 0 {
          whyles := whyles - 1;
        }
        if type_ == T_BREAK {
          level := level - 1;
        }
        wlevel := wlevel - 1;
      case Some(T_ENDIF) =>
        if type_ == T_IF || type_ == T_ELSE {
          level := level - 1;
        }
      case Some(T_ENDSW) =>
        if type_ == T_SWITCH || type_ == T_BRKSW {
          level := level - 1;
        }
      case Some(T_IF) =>
        if (type_ == T_IF || type_ == T_ELSE) && line[|line| - 1] == "then" {
          level := level + 1;
        }
      case Some(T_LABEL) =>
        if type_ == T_GOTO && |line| > 1 && line[1] == aim.goal {
          level := -1;
        }
      case Some(T_SWITCH) =>
        if type_ == T_SWITCH || type_ == T_BRKSW {
          level := level + 1;
        }
      case Some(T_FOREACH) =>
        wlevel := wlevel + 1;
        if type_ == T_BREAK {
          level := level + 1;
        }
      case Some(T_WHILE) =>
        wlevel := wlevel + 1;
        if type_ == T_BREAK {
          level := level + 1;
        }
      case _ =>
        if type_ == T_GOTO || (type_ == T_SWITCH && level == 0) {
          if LastChr(aword) == ':' {
            var w := aword[..|aword| - 1];
            if (type_ == T_GOTO && w == aim.goal) || (type_ == T_SWITCH && w == "default") {
              level := -1;
            }
          }
        }
    }
    next := State(level, wlevel, whyles);
  }

  // The search; for a goto it starts at the beginning of the script.
  method Find(aim: Aim, lines: seq<seq<string>>, start: nat, level: nat, whyles: nat) returns (r: Option<Stop>)
    requires start <= |lines| && Aims(aim.type_)
    ensures r == SearchFrom(aim.type_, Marks(aim, lines), if aim.type_ == T_GOTO then 0 else start,
                            State(level, 0, whyles))
  {
    var i := if aim.type_ == T_GOTO then 0 else start;
    var s := State(level, 0, whyles);
    ghost var run, script := Searching(aim.type_, Marks(aim, lines)), Marks(aim, lines);
    ghost var all := run(i, s);
    while s.level >= 0
      invariant i <= |lines| && script == Marks(aim, lines) && run == Searching(aim.type_, script)
      invariant if s.level >= 0 then all == run(i, s) else i > 0 && all == Some(Stop(i - 1, s.whyles))
      decreases s.level >= 0, |lines| - i
    {
      SearchStep(aim.type_, script, i, s);
      if i == |lines| {
        return None;
      }
      assert script[i] == MarkOf(aim, lines[i]);
      if Keyword(Head(lines[i])) == Some(T_ELSE) && s.level == 0 && aim.type_ == T_IF {
        return Some(Stop(i, s.whyles));
      }
      s := Round(aim, lines[i], s);
      i := i + 1;
    }
    r := Some(Stop(i - 1, s.whyles));
  }

  lemma SearchStep(type_: Token, script: Script, i: nat, s: State)
    requires i <= |script|
    ensures var run := Searching(type_, script);
            run(i, s) ==
            if i == |script| then None
            else if StopsInLine(type_, script[i], s.level) then Some(Stop(i, s.whyles))
            else
              var next := Step(type_, script[i], s);
              if next.level < 0 then Some(Stop(i, next.whyles)) else run(i + 1, next)
  {
  }
}

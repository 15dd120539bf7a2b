// What holds of the directory stack over its commands.
module DirLaws {
  import opened Shared
  import opened DirSpec
  import opened PathSpec
  import opened Numbers

  function Plus(n: nat): string {
    "+" + PutN(n)
  }

  // The text of a positive number after + is its index.
  lemma {:induction false} IndexOfPlus(n: nat)
    ensures Index(Plus(n)) == if n == 0 then None else Some(n)
  {
    PutNatRoundTrip(n);
    PutNRoundTrip(n);
    assert Plus(n)[1..] == PutN(n);
  }

  // Two commands in a row.
  lemma TwoSteps(env: Env, st: seq<string>, c: Command, mid: seq<string>, d: Command, end: seq<string>)
    requires st != [] && mid != [] && Step(env, st, c) == Success(mid) && Step(env, mid, d) == Success(end)
    ensures end != [] && Run(env, st, [c, d]) == end
  {
    assert [c, d][1..] == [d] && [d][1..] == [];
    assert Run(env, end, []) == end;
    assert Run(env, mid, [d]) == end;
  }

  // pushd exchanges the top two, twice is once back.
  lemma SwapTwice(env: Env, st: seq<string>)
    requires |st| > 1 && env.chdir(st[0]) && env.chdir(st[1])
    ensures Run(env, st, [Command(Pushd, []), Command(Pushd, [])]) == st
  {
    var swapped := [st[1], st[0]] + st[2..];
    assert [swapped[1], swapped[0]] + swapped[2..] == st;
    TwoSteps(env, st, Command(Pushd, []), swapped, Command(Pushd, []), st);
  }

  // What pushd entered, popd leaves.
  lemma PushThenPop(env: Env, st: seq<string>, arg: string)
    requires st != [] && Index(arg).None? && env.follow(st[0], arg).Some? && env.chdir(st[0])
    ensures Run(env, st, [Command(Pushd, [arg]), Command(Popd, [])]) == st
  {
    var pushed := [env.follow(st[0], arg).value] + st;
    assert pushed[1..] == st;
    TwoSteps(env, st, Command(Pushd, [arg]), pushed, Command(Popd, []), st);
  }

  lemma RotateBack<T>(s: seq<T>, i: nat)
    requires i <= |s|
    ensures Rotate(Rotate(s, i), |s| - i) == s
    ensures multiset(Rotate(s, i)) == multiset(s)
  {
    assert s == s[..i] + s[i..];
  }

  // pushd +i brings up the i-th entry, pushd +(n-i) takes it back down.
  lemma RotationsCancel(env: Env, st: seq<string>, i: nat)
    requires 0 < i < |st| && env.chdir(st[0]) && env.chdir(st[i])
    ensures Run(env, st, [Command(Pushd, [Plus(i)]), Command(Pushd, [Plus(|st| - i)])]) == st
  {
    IndexOfPlus(i);
    IndexOfPlus(|st| - i);
    var turned := Rotate(st, i);
    RotateBack(st, i);
    assert turned[|st| - i] == st[0];
    TwoSteps(env, st, Command(Pushd, [Plus(i)]), turned, Command(Pushd, [Plus(|st| - i)]), st);
  }

  lemma WithoutOldTop<T>(s: seq<T>, i: nat)
    requires 0 < i < |s|
    ensures Rotate(s[1..], i - 1) == Without(Rotate(s, i), |s| - i)
  {
    var turned := Rotate(s, i);
    assert turned[..|s| - i] == s[i..] && turned[|s| - i + 1..] == s[1..i];
    assert s[1..][i - 1..] == s[i..] && s[1..][..i - 1] == s[1..i];
  }

  // cd +i is pushd +i with the directory left behind deleted from where it then stands.
  lemma CdIsPushdThenPopd(env: Env, st: seq<string>, i: nat)
    requires 0 < i < |st| && env.chdir(st[i])
    ensures Step(env, st, Command(Cd, [Plus(i)])).Success?
    ensures Step(env, st, Command(Cd, [Plus(i)])).value
         == Run(env, st, [Command(Pushd, [Plus(i)]), Command(Popd, [Plus(|st| - i)])])
  {
    IndexOfPlus(i);
    IndexOfPlus(|st| - i);
    var turned := Rotate(st, i);
    var left := Without(turned, |st| - i);
    WithoutOldTop(st, i);
    TwoSteps(env, st, Command(Pushd, [Plus(i)]), turned, Command(Popd, [Plus(|st| - i)]), left);
  }

  lemma SwapKeeps<T>(s: seq<T>)
    requires |s| > 1
    ensures multiset([s[1], s[0]] + s[2..]) == multiset(s)
  {
    assert s == [s[0]] + [s[1]] + s[2..];
  }

  // An argument stands for the i-th entry exactly when it is a + and the digits of i, with
  // any zeros in front of them.
  lemma IndexIs(arg: string, i: nat)
    ensures Index(arg) == Some(i) <==> i > 0 && exists k: nat :: arg == "+" + (Zeros(k) + PutNat(i))
  {
    if Index(arg) == Some(i) {
      var ds := arg[1..];
      var k := DigitsPrint(ds);
      assert arg == "+" + ds;
    }
    if k: nat :| i > 0 && arg == "+" + (Zeros(k) + PutNat(i)) {
      var ds := Zeros(k) + PutNat(i);
      PutNatRoundTrip(i);
      ZerosAdd(k, PutNat(i));
      SignsAreRead(ds, false, false, ds);
      assert arg[1..] == ds;
    }
  }

  // pushd keeps the entries, or adds the one it followed an argument to.
  lemma PushdEntries(env: Env, st: seq<string>, args: seq<string>)
    requires st != [] && PushdStep(env, st, args).Success?
    ensures var r := PushdStep(env, st, args).value;
            if args != [] && Index(args[0]).None?
            then multiset(r) == multiset(st) + multiset{env.follow(st[0], args[0]).value}
            else multiset(r) == multiset(st)
  {
    if args == [] {
      SwapKeeps(st);
    } else if Index(args[0]).Some? {
      RotateBack(st, Index(args[0]).value);
    }
  }

  // popd takes the one entry away that was named, or the top.
  lemma PopdEntries(env: Env, st: seq<string>, args: seq<string>)
    requires st != [] && PopdStep(env, st, args).Success?
    ensures var i := if args == [] then 0 else Index(args[0]).value;
            i < |st| && multiset(PopdStep(env, st, args).value) + multiset{st[i]} == multiset(st)
  {
    var i := if args == [] then 0 else Index(args[0]).value;
    assert st == st[..i] + [st[i]] + st[i + 1..];
  }

  // cd drops the top; without a number something comes in its place.
  lemma CdEntries(env: Env, st: seq<string>, args: seq<string>)
    requires st != [] && CdStep(env, st, args).Success?
    ensures var r := CdStep(env, st, args).value;
            if args != [] && Index(args[0]).Some?
            then multiset(r) + multiset{st[0]} == multiset(st)
            else multiset(r) + multiset{st[0]} == multiset(st) + multiset{r[0]}
  {
    assert st == [st[0]] + st[1..];
    if args != [] && Index(args[0]).Some? {
      RotateBack(st[1..], Index(args[0]).value - 1);
    }
  }

  // ----- where the entries go -----

  // pushd without arguments exchanges the top two entries.
  lemma PushdSwaps(env: Env, st: seq<string>)
    requires st != []
    ensures var r := Step(env, st, Command(Pushd, []));
            && (r.Success? <==> |st| > 1 && env.chdir(st[1]))
            && (r.Success? ==>
                  && |r.value| == |st| && r.value[0] == st[1] && r.value[1] == st[0]
                  && forall k :: 2 <= k < |st| ==> r.value[k] == st[k])
  {
  }

  // pushd +i turns the stack until the i-th entry is on top.
  lemma PushdTurns(env: Env, st: seq<string>, i: nat)
    requires st != [] && i > 0
    ensures var r := Step(env, st, Command(Pushd, [Plus(i)]));
            && (r.Success? <==> i < |st| && env.chdir(st[i]))
            && (r.Success? ==>
                  && |r.value| == |st|
                  && forall k :: 0 <= k < |st| ==> r.value[k] == st[if k + i < |st| then k + i else k + i - |st|])
  {
    IndexOfPlus(i);
  }

  // pushd with a name puts what it was followed to on top.
  lemma PushdPushes(env: Env, st: seq<string>, arg: string)
    requires st != [] && Index(arg).None?
    ensures var r := Step(env, st, Command(Pushd, [arg]));
            && (r.Success? <==> env.follow(st[0], arg).Some?)
            && (r.Success? ==>
                  && |r.value| == |st| + 1 && r.value[0] == env.follow(st[0], arg).value
                  && forall k :: 0 <= k < |st| ==> r.value[k + 1] == st[k])
  {
  }

  // popd takes the top away, popd +i the i-th entry.
  lemma PopdDrops(env: Env, st: seq<string>, i: nat)
    requires st != []
    ensures var r := Step(env, st, Command(Popd, if i == 0 then [] else [Plus(i)]));
            && (r.Success? <==> i < |st| && (i == 0 ==> |st| > 1 && env.chdir(st[1])))
            && (r.Success? ==>
                  && |r.value| == |st| - 1
                  && forall k :: 0 <= k < |st| - 1 ==> r.value[k] == st[if k < i then k else k + 1])
  {
    IndexOfPlus(i);
  }

  // cd puts the home, or what a name was followed to, in place of the top.
  lemma CdReplaces(env: Env, st: seq<string>, args: seq<string>)
    requires st != [] && |args| <= 1 && (args != [] ==> Index(args[0]).None?)
    ensures var r := Step(env, st, Command(Cd, args));
            && (r.Success? <==> if args == [] then env.home != "" && env.chdir(env.home)
                                else env.follow(st[0], args[0]).Some?)
            && (r.Success? ==>
                  && |r.value| == |st|
                  && r.value[0] == (if args == [] then env.home else env.follow(st[0], args[0]).value)
                  && forall k :: 1 <= k < |st| ==> r.value[k] == st[k])
  {
  }

  // cd +i leaves the top and turns the others until the i-th entry is on top.
  lemma CdTurns(env: Env, st: seq<string>, i: nat)
    requires st != [] && i > 0
    ensures var r := Step(env, st, Command(Cd, [Plus(i)]));
            && (r.Success? <==> i < |st| && env.chdir(st[i]))
            && (r.Success? ==>
                  && |r.value| == |st| - 1
                  && forall k :: 0 <= k < |st| - 1 ==>
                       r.value[k] == st[if k + i < |st| then k + i else k + i - |st| + 1])
  {
    IndexOfPlus(i);
  }

  // What is wrong with the arguments.
  lemma WrongArguments(env: Env, st: seq<string>, verb: Verb, args: seq<string>, i: nat)
    requires st != [] && i > 0
    ensures |args| > 1 ==> Step(env, st, Command(verb, args)) == Failure(TooMany)
    ensures i >= |st| ==> Step(env, st, Command(verb, [Plus(i)])) == Failure(Deep)
    ensures |args| == 1 && Index(args[0]).None? ==> Step(env, st, Command(Popd, args)) == Failure(BadDir)
  {
    IndexOfPlus(i);
  }

  // The directory a command enters, if it enters one.
  function Entered(env: Env, st: seq<string>, c: Command): Option<string>
    requires st != []
  {
    var named := c.args != [] && Index(c.args[0]).Some?;
    if c.verb == Popd then if c.args == [] && |st| > 1 then Some(st[1]) else None
    else if named then if Index(c.args[0]).value < |st| then Some(st[Index(c.args[0]).value]) else None
    else if c.args != [] then env.follow(st[0], c.args[0])
    else if c.verb == Cd then Some(env.home)
    else if |st| > 1 then Some(st[1])
    else None
  }

  // After a command that succeeds the directory entered is on top.
  lemma EnteredOnTop(env: Env, st: seq<string>, c: Command)
    requires st != [] && Step(env, st, c).Success?
    ensures Step(env, st, c).value[0] == if Entered(env, st, c).Some? then Entered(env, st, c).value else st[0]
  {
  }

  // The directory the shell is in after some commands, the failed ones entering none.
  function Cwd(env: Env, st: seq<string>, cs: seq<Command>, cwd: string): string
    requires st != []
    decreases |cs|
  {
    if cs == [] then cwd
    else
      match Step(env, st, cs[0])
      case Failure(_) => Cwd(env, st, cs[1..], cwd)
      case Success(next) =>
        Cwd(env, next, cs[1..], if Entered(env, st, cs[0]).Some? then Entered(env, st, cs[0]).value else cwd)
  }

  // Over every run the shell is in the directory on top.
  lemma {:induction false} RunOnTop(env: Env, st: seq<string>, cs: seq<Command>)
    requires st != []
    ensures Run(env, st, cs)[0] == Cwd(env, st, cs, st[0])
    decreases |cs|
  {
    if cs != [] {
      match Step(env, st, cs[0])
      case Failure(_) => RunOnTop(env, st, cs[1..]);
      case Success(next) =>
        EnteredOnTop(env, st, cs[0]);
        RunOnTop(env, next, cs[1..]);
    }
  }

  // ----- the names -----

  // A name as canonicalisation should leave it.
  ghost predicate Settled(name: string) {
    exists st :: Proper(st) && name == Absolute(st)
  }

  // The text dgoto canonicalises, behind the names of the working directory.
  function GoTo(st: seq<string>, cp: string): string
    requires '\0' !in cp
  {
    if cp != "" && cp[0] == '/' then Canon([], cp) else Canon(st, "/" + cp)
  }

  // Where dgoto starts and what is behind it.
  function From(st: seq<string>, cp: string): seq<string> {
    if cp != "" && cp[0] == '/' then [] else st
  }

  function Rest(cp: string): (rest: string)
    requires '\0' !in cp
    ensures IsRest(rest) && rest != ""
  {
    if cp != "" && cp[0] == '/' then cp else "/" + cp
  }

  lemma NotSettled()
    ensures !Settled("/.")
  {
    SplitStep(".", "");
    assert "/" + "." + "" == "/.";
    forall st | Proper(st) ensures "/." != Absolute(st) {
      SplitOfRender(st);
    }
  }

  lemma {:induction false} FoldNames(st: seq<string>, cs: seq<string>)
    requires Names(st) && forall i :: 0 <= i < |cs| ==> '/' !in cs[i] && '\0' !in cs[i]
    ensures Names(Fold(st, cs))
    decreases |cs|
  {
    if cs != [] { FoldNames(Push(st, cs[0]), cs[1..]); }
  }

  // The names are read off their text.
  function Place(name: string): seq<string> {
    if IsRest(name) && name != "/" then Split(name) else []
  }

  lemma PlaceOf(st: seq<string>)
    requires Names(st)
    ensures Place(Absolute(st)) == st
  {
    SplitOfRender(st);
    RenderFront(st);
    if st != [] { assert IsName(st[0]) && |Render(st)| >= 1 + |st[0]|; }
  }

  lemma SettledIs(st: seq<string>)
    requires Names(st)
    ensures Settled(Absolute(st)) <==> Proper(st)
  {
    PlaceOf(st);
    if s :| Proper(s) && Absolute(st) == Absolute(s) { PlaceOf(s); }
  }

  // From any directory dgoto gives a settled name exactly when the text does not end with
  // a . behind the root and the names left over are proper.
  lemma GoToSettles(st: seq<string>, cp: string)
    requires Names(st) && '\0' !in cp
    ensures Settled(GoTo(st, cp)) <==>
            !Quirk(From(st, cp), Rest(cp)) && Proper(Fold(From(st, cp), Split(Rest(cp))))
  {
    var from, rest := From(st, cp), Rest(cp);
    SplitPieces(rest);
    FoldNames(from, Split(rest));
    SettledIs(Fold(from, Split(rest)));
    if Quirk(from, rest) { NotSettled(); }
  }

  // How many names are left of kept names with more behind them, once the components have
  // been pushed.
  function Low(kept: nat, more: nat, cs: seq<string>): (n: nat)
    ensures n <= kept
    decreases |cs|
  {
    if cs == [] then kept
    else if cs[0] == "" || cs[0] == "." then Low(kept, more, cs[1..])
    else if cs[0] != ".." then Low(kept, more + 1, cs[1..])
    else if more > 0 then Low(kept, more - 1, cs[1..])
    else Low(if kept > 0 then kept - 1 else 0, 0, cs[1..])
  }

  // What is left over is proper exactly when the names of the start that were not backed
  // out of are.
  lemma {:induction false} LeftOver(st: seq<string>, more: seq<string>, cs: seq<string>)
    requires Names(st) && Proper(more) && forall i :: 0 <= i < |cs| ==> '/' !in cs[i] && '\0' !in cs[i]
    ensures Proper(Fold(st + more, cs)) <==> Proper(st[..Low(|st|, |more|, cs)])
    decreases |cs|
  {
    if cs == [] {
      assert st[..|st|] == st;
      ProperConcat(st, more);
    } else if cs[0] == "" || cs[0] == "." {
      LeftOver(st, more, cs[1..]);
    } else if cs[0] != ".." {
      assert st + more + [cs[0]] == st + (more + [cs[0]]);
      LeftOver(st, more + [cs[0]], cs[1..]);
    } else if more != [] {
      assert (st + more)[..|st + more| - 1] == st + more[..|more| - 1];
      LeftOver(st, more[..|more| - 1], cs[1..]);
    } else {
      var back := if st == [] then [] else st[..|st| - 1];
      LeftOver(back, [], cs[1..]);
      assert st + more == st && back + [] == back && Push(st, "..") == back;
      FrontOfBack(st, back, Low(|back|, 0, cs[1..]));
    }
  }

  lemma ProperConcat(st: seq<string>, more: seq<string>)
    requires Proper(more)
    ensures Proper(st + more) <==> Proper(st)
  {
    assert forall i :: 0 <= i < |st + more| ==> (st + more)[i] == if i < |st| then st[i] else more[i - |st|];
    assert forall i :: 0 <= i < |st| ==> st[i] == (st + more)[i];
  }

  lemma FrontOfBack(st: seq<string>, back: seq<string>, n: nat)
    requires n <= |back| <= |st| && back == st[..|back|]
    ensures back[..n] == st[..n]
  {
  }

  // A directory with the name that was kept spoils every name reached from it, until the
  // argument backs out of it.
  lemma KeptDotSpreads(st: seq<string>, cp: string)
    requires Names(st) && '\0' !in cp && (cp == "" || cp[0] != '/')
    ensures var cs := Split("/" + cp);
            Settled(GoTo(st, cp)) <==> !Quirk(st, "/" + cp) && Proper(st[..Low(|st|, 0, cs)])
  {
    GoToSettles(st, cp);
    SplitPieces("/" + cp);
    LeftOver(st, [], Split("/" + cp));
    assert st + [] == st;
  }

  // cd /. keeps its name, and cd x from there has it in front.
  lemma KeptDotExample()
    ensures GoTo([], "/.") == "/." == Absolute(["."]) && GoTo(["."], "x") == "/./x"
  {
    CanonLast([], ".");
    assert "/" + "." == "/.";
    CanonLast(["."], "x");
    assert "/" + "x" == "/x";
    assert ["."][..0] == [] && (["."] + ["x"])[..1] == ["."];
    assert Render(["."]) == "" + "/" + ".";
    assert Render(["."] + ["x"]) == Render(["."]) + "/" + "x";
  }

  // ----- runs -----

  ghost predicate AllSettled(st: seq<string>) {
    forall i :: 0 <= i < |st| ==> Settled(st[i])
  }

  // An argument followed is handed to dgoto as some text: itself, or what the search for
  // the directory made of it.
  ghost predicate GoesTo(env: Env, text: (string, string) -> string) {
    && (forall from, arg :: '\0' !in text(from, arg))
    && (forall from, arg :: env.follow(from, arg).Some? ==>
          env.follow(from, arg).value == GoTo(Place(from), text(from, arg)))
  }

  predicate Follows(env: Env, st: seq<string>, c: Command)
    requires st != []
  {
    c.verb != Popd && |c.args| == 1 && Index(c.args[0]).None? && env.follow(st[0], c.args[0]).Some?
  }

  // The command follows an argument whose text ends with a . behind the root.
  ghost predicate Dotted(env: Env, text: (string, string) -> string, st: seq<string>, c: Command)
    requires GoesTo(env, text) && st != []
  {
    && Follows(env, st, c)
    && var cp := text(st[0], c.args[0]);
       Quirk(From(Place(st[0]), cp), Rest(cp))
  }

  function Next(env: Env, st: seq<string>, c: Command): (r: seq<string>)
    requires st != []
    ensures r != []
  {
    var r := Step(env, st, c);
    if r.Success? then r.value else st
  }

  lemma FollowSettles(env: Env, text: (string, string) -> string, from: string, arg: string)
    requires GoesTo(env, text) && Settled(from) && env.follow(from, arg).Some?
    ensures var cp := text(from, arg);
            Settled(env.follow(from, arg).value) <==> !Quirk(From(Place(from), cp), Rest(cp))
  {
    var st :| Proper(st) && from == Absolute(st);
    var cp := text(from, arg);
    PlaceOf(st);
    GoToSettles(st, cp);
    SplitPieces(Rest(cp));
    FoldProper(From(st, cp), Split(Rest(cp)));
  }

  lemma CdSettled(env: Env, st: seq<string>, args: seq<string>)
    requires st != [] && AllSettled(st) && (env.home == "" || Settled(env.home))
    requires CdStep(env, st, args).Success? && !Follows(env, st, Command(Cd, args))
    ensures AllSettled(CdStep(env, st, args).value)
  {
  }

  lemma PushdSettled(env: Env, st: seq<string>, args: seq<string>)
    requires st != [] && AllSettled(st)
    requires PushdStep(env, st, args).Success? && !Follows(env, st, Command(Pushd, args))
    ensures AllSettled(PushdStep(env, st, args).value)
  {
  }

  lemma PopdSettled(env: Env, st: seq<string>, args: seq<string>)
    requires st != [] && AllSettled(st) && PopdStep(env, st, args).Success?
    ensures AllSettled(PopdStep(env, st, args).value)
  {
  }

  lemma StaySettled(env: Env, st: seq<string>, c: Command)
    requires st != [] && AllSettled(st) && (env.home == "" || Settled(env.home)) && !Follows(env, st, c)
    ensures AllSettled(Next(env, st, c))
  {
    if Step(env, st, c).Success? {
      match c.verb {
        case Cd => CdSettled(env, st, c.args);
        case Pushd => PushdSettled(env, st, c.args);
        case Popd => PopdSettled(env, st, c.args);
      }
    }
  }

  // Following puts the new name on top, in front of settled ones.
  lemma FollowedOnTop(env: Env, st: seq<string>, c: Command)
    requires st != [] && AllSettled(st) && Follows(env, st, c)
    ensures AllSettled(Next(env, st, c)) <==> Settled(env.follow(st[0], c.args[0]).value)
  {
    var name := env.follow(st[0], c.args[0]).value;
    assert Next(env, st, c) == [name] + if c.verb == Cd then st[1..] else st;
    assert Next(env, st, c)[0] == name;
  }

  lemma StepSettled(env: Env, text: (string, string) -> string, st: seq<string>, c: Command)
    requires GoesTo(env, text) && (env.home == "" || Settled(env.home)) && st != [] && AllSettled(st)
    ensures AllSettled(Next(env, st, c)) <==> !Dotted(env, text, st, c)
  {
    if Follows(env, st, c) {
      FollowSettles(env, text, st[0], c.args[0]);
      FollowedOnTop(env, st, c);
    } else {
      StaySettled(env, st, c);
    }
  }

  ghost predicate NeverDotted(env: Env, text: (string, string) -> string, st: seq<string>, cs: seq<Command>)
    requires GoesTo(env, text) && st != []
    decreases |cs|
  {
    cs == [] || (!Dotted(env, text, st, cs[0]) && NeverDotted(env, text, Next(env, st, cs[0]), cs[1..]))
  }

  // All names are settled after every command of the run.
  ghost predicate AlwaysSettled(env: Env, st: seq<string>, cs: seq<Command>)
    requires st != []
    decreases |cs|
  {
    AllSettled(st) && (cs == [] || AlwaysSettled(env, Next(env, st, cs[0]), cs[1..]))
  }

  // Over every run the names stay settled exactly when no command follows a text that ends
  // with a . behind the root.
  lemma {:induction false} RunSettled(env: Env, text: (string, string) -> string, st: seq<string>, cs: seq<Command>)
    requires GoesTo(env, text) && (env.home == "" || Settled(env.home)) && st != [] && AllSettled(st)
    ensures AlwaysSettled(env, st, cs) <==> NeverDotted(env, text, st, cs)
    ensures NeverDotted(env, text, st, cs) ==> AllSettled(Run(env, st, cs))
    decreases |cs|
  {
    if cs != [] {
      StepSettled(env, text, st, cs[0]);
      if !Dotted(env, text, st, cs[0]) { RunSettled(env, text, Next(env, st, cs[0]), cs[1..]); }
    }
  }
}

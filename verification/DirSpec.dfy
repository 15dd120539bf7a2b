// What cd, pushd and popd do to the directory stack, its top first (bin/csh/dir.c).
module DirSpec {
  import opened Shared
  import opened Numbers

  datatype DirError = NoHome | CantChange | TooMany | NoDir | Deep | BadDir | Empty | System

  datatype Verb = Cd | Pushd | Popd

  datatype Command = Command(verb: Verb, args: seq<string>)

  // The outside: the home directory, which directories can be entered, and the new name
  // of the working directory that following an argument from the present one gives.
  datatype Env = Env(home: string, chdir: string -> bool, follow: (string, string) -> Option<string>)

  // The number of an argument +n with n positive.
  function Index(arg: string): Option<nat> {
    if First(arg) != '+' || !AllDigits(arg[1..]) then None
    else
      match GetN(arg[1..])
      case Some(i) => if i <= 0 then None else Some(i)
      case None => None
  }

  function Without<T>(s: seq<T>, j: nat): seq<T>
    requires j < |s|
  {
    s[..j] + s[j + 1..]
  }

  function With<T>(s: seq<T>, j: nat, x: T): seq<T>
    requires j <= |s|
  {
    s[..j] + [x] + s[j..]
  }

  function Rotate<T>(s: seq<T>, i: nat): seq<T>
    requires i <= |s|
  {
    s[i..] + s[..i]
  }

  function CdStep(env: Env, st: seq<string>, args: seq<string>): (r: Result<seq<string>, DirError>)
    requires st != []
    ensures r.Success? ==> r.value != []
  {
    if args == [] then
      if env.home == "" then Failure(NoHome)
      else if !env.chdir(env.home) then Failure(CantChange)
      else Success([env.home] + st[1..])
    else if |args| > 1 then Failure(TooMany)
    else
      match Index(args[0])
      case Some(i) =>
        if i >= |st| then Failure(Deep)
        else if !env.chdir(st[i]) then Failure(System)
        else Success(Rotate(st[1..], i - 1))
      case None =>
        match env.follow(st[0], args[0])
        case Some(name) => Success([name] + st[1..])
        case None => Failure(System)
  }

  function PushdStep(env: Env, st: seq<string>, args: seq<string>): (r: Result<seq<string>, DirError>)
    requires st != []
    ensures r.Success? ==> r.value != []
  {
    if args == [] then
      if |st| == 1 then Failure(NoDir)
      else if !env.chdir(st[1]) then Failure(System)
      else Success([st[1], st[0]] + st[2..])
    else if |args| > 1 then Failure(TooMany)
    else
      match Index(args[0])
      case Some(i) =>
        if i >= |st| then Failure(Deep)
        else if !env.chdir(st[i]) then Failure(System)
        else Success(Rotate(st, i))
      case None =>
        match env.follow(st[0], args[0])
        case Some(name) => Success([name] + st)
        case None => Failure(System)
  }

  function PopdStep(env: Env, st: seq<string>, args: seq<string>): (r: Result<seq<string>, DirError>)
    requires st != []
    ensures r.Success? ==> r.value != []
  {
    if args == [] then
      if |st| == 1 then Failure(Empty)
      else if !env.chdir(st[1]) then Failure(System)
      else Success(st[1..])
    else if |args| > 1 then Failure(TooMany)
    else
      match Index(args[0])
      case Some(i) => if i >= |st| then Failure(Deep) else Success(Without(st, i))
      case None => Failure(BadDir)
  }

  function Step(env: Env, st: seq<string>, c: Command): (r: Result<seq<string>, DirError>)
    requires st != []
    ensures r.Success? ==> r.value != []
  {
    match c.verb
    case Cd => CdStep(env, st, c.args)
    case Pushd => PushdStep(env, st, c.args)
    case Popd => PopdStep(env, st, c.args)
  }

  // A command that fails leaves the stack as it was.
  function Run(env: Env, st: seq<string>, cs: seq<Command>): (r: seq<string>)
    requires st != []
    ensures r != []
    decreases |cs|
  {
    if cs == [] then st
    else
      match Step(env, st, cs[0])
      case Success(next) => Run(env, next, cs[1..])
      case Failure(_) => Run(env, st, cs[1..])
  }
}

/** The built-in commands of app/handlers.ts, as a state machine over the
    shell's output, its working directory and whether the session is closed.

    Writing to the terminal appends a string to `output`, `rl.close()` sets
    `closed`, and `process.chdir` sets `cwd`. What the commands learn from the
    system (the `PATH` lookup of `search_PATH` and the `isDirectory` test) is
    passed in as a function. */
module Handlers {
  import opened Strings
  import opened Symbols
  import opened Paths

  /** The result of `handleBuiltIns`: keep reading lines, or stop. */
  datatype Signal = Continue | Break

  /** The `PATH` lookup of `search_PATH`: whether the command was found, and
      its full path. */
  type PathLookup = string -> (bool, string)

  /** What one built-in command does: the lines it writes, the working
      directory after it, whether it closes the session, and its signal. */
  datatype Effect = Effect(written: seq<string>, cwd: string, closed: bool, signal: Signal)

  /** The line `type cmd` writes (app/handlers.ts:12-32). */
  function TypeLine(cmd: string, searchPath: PathLookup): (line: string)
    ensures |cmd| < |line| && line[..|cmd|] == cmd && line[|line| - 1] == '\n'
  {
    if IsBuiltIn(cmd) then cmd + " is a shell builtin\n"
    else
      var (pathExists, fullPath) := searchPath(cmd);
      if pathExists then cmd + " is " + fullPath + "\n" else cmd + ": not found\n"
  }

  /** The line `cd` writes when the target is not a directory. */
  function CdError(absPath: string): (line: string)
    ensures |line| > |absPath| + 4 && line[..4] == "cd: " && line[4..4 + |absPath|] == absPath
    ensures line[|line| - 1] == '\n'
  {
    "cd: " + absPath + ": No such file or directory\n"
  }

  /** What `handleBuiltIns(b, args)` does when the working directory is `cwd`
      and the home directory is `home`. */
  function Dispatch(b: BuiltIn, args: seq<string>, cwd: string, home: string,
                    searchPath: PathLookup, isDirectory: string -> bool): (e: Effect)
    requires b == Type || b == Cd ==> |args| >= 1
    ensures e.signal == Break <==> b == Exit
    ensures e.closed <==> b == Exit
    ensures |e.written| <= 1
    ensures forall k :: 0 <= k < |e.written| ==> e.written[k] != [] && e.written[k][|e.written[k]| - 1] == '\n'
    ensures b == Exit ==> e.written == []
    ensures b != Cd ==> e.cwd == cwd
    ensures b == Echo ==> e.written == [Join(args, ' ') + "\n"]
    ensures b == Pwd ==> e.written == [cwd + "\n"]
    ensures b == Cd ==>
      var absPath := RelToAbs(args[0], cwd, home);
      (e.written == [] <==> isDirectory(absPath)) &&
      (isDirectory(absPath) ==> e.cwd == absPath) &&
      (!isDirectory(absPath) ==> e.cwd == cwd && e.written == [CdError(absPath)])
  {
    match b
    case Exit => Effect([], cwd, true, Break)
    case Echo => Effect([Join(args, ' ') + "\n"], cwd, false, Continue)
    case Pwd => Effect([cwd + "\n"], cwd, false, Continue)
    case Type => Effect([TypeLine(args[0], searchPath)], cwd, false, Continue)
    case Cd =>
      var absPath := RelToAbs(args[0], cwd, home);
      if isDirectory(absPath) then Effect([], absPath, false, Continue)
      else Effect([CdError(absPath)], cwd, false, Continue)
  }

  // ---------------------------------------------------------------------------
  // Properties

  /** `type` on a built-in name answers without consulting `PATH`. */
  lemma TypeOfBuiltIn(name: string, rest: seq<string>, cwd: string, home: string,
                      p1: PathLookup, p2: PathLookup, isDirectory: string -> bool)
    requires IsBuiltIn(name)
    ensures Dispatch(Type, [name] + rest, cwd, home, p1, isDirectory).written == [name + " is a shell builtin\n"]
    ensures Dispatch(Type, [name] + rest, cwd, home, p1, isDirectory) == Dispatch(Type, [name] + rest, cwd, home, p2, isDirectory)
  {
  }

  /** `type` on any other name reports the `PATH` lookup. */
  lemma TypeOfOther(name: string, rest: seq<string>, cwd: string, home: string,
                    searchPath: PathLookup, isDirectory: string -> bool)
    requires !IsBuiltIn(name)
    ensures var e := Dispatch(Type, [name] + rest, cwd, home, searchPath, isDirectory);
      e.signal == Continue && e.cwd == cwd &&
      (searchPath(name).0 ==> e.written == [name + " is " + searchPath(name).1 + "\n"]) &&
      (!searchPath(name).0 ==> e.written == [name + ": not found\n"])
  {
  }

  /** After a successful `cd`, `pwd` prints the directory changed to. */
  lemma CdThenPwd(dirPath: string, cwd: string, home: string,
                  searchPath: PathLookup, isDirectory: string -> bool)
    requires isDirectory(RelToAbs(dirPath, cwd, home))
    ensures var moved := Dispatch(Cd, [dirPath], cwd, home, searchPath, isDirectory);
      moved.written == [] &&
      Dispatch(Pwd, [], moved.cwd, home, searchPath, isDirectory).written == [RelToAbs(dirPath, cwd, home) + "\n"]
  {
  }

  /** `cd .` stays in a working directory that exists, and `cd ..` moves to
      its parent when that exists. */
  lemma CdDot(cwd: string, home: string, searchPath: PathLookup, isDirectory: string -> bool)
    requires cwd != [] && isDirectory(cwd)
    ensures Dispatch(Cd, ["."], cwd, home, searchPath, isDirectory) == Effect([], cwd, false, Continue)
    ensures isDirectory(Dirname(cwd)) ==>
      Dispatch(Cd, [".."], cwd, home, searchPath, isDirectory) == Effect([], Dirname(cwd), false, Continue)
  {
    DotPaths(cwd, home);
  }

  /** A failed `cd` reports the absolute path it tried. */
  lemma CdMissing(dirPath: string, cwd: string, home: string,
                  searchPath: PathLookup, isDirectory: string -> bool)
    requires !isDirectory(RelToAbs(dirPath, cwd, home))
    requires cwd != [] && cwd[0] == '/' && (home == [] || home[0] == '/')
    ensures var e := Dispatch(Cd, [dirPath], cwd, home, searchPath, isDirectory);
      e.cwd == cwd && |e.written| == 1 && e.written[0][..5] == "cd: /"
  {
    Absolute(dirPath, cwd, home);
    var absPath := RelToAbs(dirPath, cwd, home);
    assert CdError(absPath)[..5] == "cd: " + [absPath[0]];
  }

  // ---------------------------------------------------------------------------
  // The shell

  /** The state the handlers act on: what was written, the working
      directory, whether the session was closed, and the home directory. */
  class Shell {
    var output: seq<string>
    var cwd: string
    var closed: bool
    const home: string

    constructor(cwd0: string, home0: string)
      ensures output == [] && cwd == cwd0 && !closed && home == home0
    {
      output := [];
      cwd := cwd0;
      closed := false;
      home := home0;
    }

    /** `handleType(cmd)`. */
    method HandleType(cmd: string, searchPath: PathLookup)
      modifies this
      ensures output == old(output) + [TypeLine(cmd, searchPath)]
      ensures cwd == old(cwd) && closed == old(closed)
    {
      if IsBuiltIn(cmd) {
        output := output + [cmd + " is a shell builtin\n"];
        return;
      }
      var pathExists, fullPath := searchPath(cmd).0, searchPath(cmd).1;
      if pathExists {
        output := output + [cmd + " is " + fullPath + "\n"];
      } else {
        output := output + [cmd + ": not found\n"];
      }
    }

    /** `handleCd(dirPath)`: change to the absolute path if it is a
        directory, else report it. */
    method HandleCd(dirPath: string, isDirectory: string -> bool)
      modifies this
      ensures var absPath := RelToAbs(dirPath, old(cwd), home);
        (isDirectory(absPath) ==> cwd == absPath && output == old(output)) &&
        (!isDirectory(absPath) ==> cwd == old(cwd) && output == old(output) + [CdError(absPath)])
      ensures closed == old(closed)
    {
      var absPath := RelativeToAbsPaths(dirPath, cwd, home);
      if isDirectory(absPath) {
        cwd := absPath;
      } else {
        output := output + ["cd: " + absPath + ": No such file or directory\n"];
      }
    }

    /** `handleBuiltIns(cmd, args)`: `cmd` must name a built-in, and `type`
        and `cd` read their first argument. */
    method HandleBuiltIns(cmd: string, args: seq<string>, searchPath: PathLookup, isDirectory: string -> bool)
      returns (signal: Signal)
      requires IsBuiltIn(cmd)
      requires cmd == "type" || cmd == "cd" ==> |args| >= 1
      modifies this
      ensures var e := Dispatch(AsBuiltIn(cmd).value, args, old(cwd), home, searchPath, isDirectory);
        output == old(output) + e.written && cwd == e.cwd &&
        closed == (old(closed) || e.closed) && signal == e.signal
    {
      match AsBuiltIn(cmd).value
      case Exit =>
        closed := true;
        return Break;
      case Echo =>
        output := output + [Join(args, ' ') + "\n"];
        return Continue;
      case Pwd =>
        output := output + [cwd + "\n"];
        return Continue;
      case Type =>
        HandleType(args[0], searchPath);
        return Continue;
      case Cd =>
        HandleCd(args[0], isDirectory);
        return Continue;
    }
  }
}

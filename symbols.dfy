/** The shell's built-in commands (app/symbols.ts): the runtime list
    `BUILT_INS`, the type `BUILT_IN` naming the same five commands, and the
    membership test `isBuiltIn`. */
module Symbols {
  import opened Wrappers

  /** The type `BUILT_IN`: one variant per built-in command. */
  datatype BuiltIn = Echo | Exit | Type | Pwd | Cd

  /** The runtime list `BUILT_INS`, in its declared order. */
  const BUILT_INS: seq<string> := ["echo", "exit", "type", "pwd", "cd"]

  /** The command name a variant of `BUILT_IN` stands for. */
  function Name(b: BuiltIn): (n: string)
    ensures n in BUILT_INS
    ensures n != [] && ' ' !in n
  {
    match b
    case Echo => "echo"
    case Exit => "exit"
    case Type => "type"
    case Pwd => "pwd"
    case Cd => "cd"
  }

  /** `isBuiltIn(cmd)`: `cmd` is one of the names in `BUILT_INS`, compared
      exactly (no case folding, no trimming). */
  predicate IsBuiltIn(cmd: string)
    ensures IsBuiltIn(cmd) <==> exists b: BuiltIn :: Name(b) == cmd
  {
    assert BUILT_INS == [Name(Echo), Name(Exit), Name(Type), Name(Pwd), Name(Cd)];
    cmd in BUILT_INS
  }

  /** The narrowing `cmd is BUILT_IN` that `isBuiltIn` performs: the variant
      named by `cmd`, when there is one. */
  function AsBuiltIn(cmd: string): (r: Option<BuiltIn>)
    ensures r.Some? <==> IsBuiltIn(cmd)
    ensures r.Some? ==> Name(r.value) == cmd
  {
    if cmd == "echo" then Some(Echo)
    else if cmd == "exit" then Some(Exit)
    else if cmd == "type" then Some(Type)
    else if cmd == "pwd" then Some(Pwd)
    else if cmd == "cd" then Some(Cd)
    else None
  }

  /** The list and the type name the same five commands, each exactly once. */
  lemma ListMatchesType()
    ensures |BUILT_INS| == 5
    ensures forall i, j :: 0 <= i < j < |BUILT_INS| ==> BUILT_INS[i] != BUILT_INS[j]
    ensures forall b: BuiltIn :: Name(b) in BUILT_INS
    ensures forall b1: BuiltIn, b2: BuiltIn :: Name(b1) == Name(b2) ==> b1 == b2
  {
  }

  /** The five names are built in; the empty string and case variants are not. */
  lemma BuiltInExamples()
    ensures IsBuiltIn("echo") && IsBuiltIn("exit") && IsBuiltIn("type")
    ensures IsBuiltIn("pwd") && IsBuiltIn("cd")
    ensures !IsBuiltIn("") && !IsBuiltIn("Echo") && !IsBuiltIn("EXIT") && !IsBuiltIn("cd ")
  {
    assert "echo" == Name(Echo);
    assert "exit" == Name(Exit);
    assert "type" == Name(Type);
    assert "pwd" == Name(Pwd);
    assert "cd" == Name(Cd);
  }
}

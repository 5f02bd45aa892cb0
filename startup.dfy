/** The file the app opens at startup: the first command-line argument after
    the program name that does not start with `-`, kept in the application
    state until the frontend takes it. */
module Startup {
  import opened Chars

  /** An argument that starts with `-` is an option, not a file. */
  predicate IsOption(arg: string)
  {
    |arg| > 0 && arg[0] == '-'
  }

  /** `std::env::args().skip(1).find(|a| !a.starts_with('-'))`. */
  function InitialFile(args: seq<string>): (r: Option<string>)
    ensures r.Some? <==> exists i :: 1 <= i < |args| && !IsOption(args[i])
    ensures r.Some? ==> exists i ::
              && 1 <= i < |args| && args[i] == r.value && !IsOption(args[i])
              && forall j :: 1 <= j < i ==> IsOption(args[j])
  {
    if |args| <= 1 then None else FirstFile(args[1..])
  }

  /** The first argument of `args` that is not an option. */
  function FirstFile(args: seq<string>): (r: Option<string>)
    ensures r.Some? <==> exists i :: 0 <= i < |args| && !IsOption(args[i])
    ensures r.Some? ==> exists i ::
              && 0 <= i < |args| && args[i] == r.value && !IsOption(args[i])
              && forall j :: 0 <= j < i ==> IsOption(args[j])
  {
    if args == [] then None
    else if !IsOption(args[0]) then Some(args[0])
    else
      var r := FirstFile(args[1..]);
      assert forall i :: 1 <= i < |args| ==> args[i] == args[1..][i - 1];
      r
  }

  /** The application state holding the initial file. */
  class AppState {
    var initialFile: Option<string>

    /** The state `run` builds from the command line. */
    constructor (args: seq<string>)
      ensures initialFile == InitialFile(args)
    {
      initialFile := InitialFile(args);
    }

    /** `get_initial_file`: hands out the stored path and leaves nothing behind. */
    method GetInitialFile() returns (r: Option<string>)
      modifies this
      ensures r == old(initialFile)
      ensures initialFile == None
    {
      r := initialFile;
      initialFile := None;
    }
  }

  /** Two calls of `get_initial_file` after startup: the first returns the
      initial file, the second nothing. */
  method StartupCalls(args: seq<string>) returns (first: Option<string>, second: Option<string>)
    ensures first == InitialFile(args)
    ensures second == None
  {
    var state := new AppState(args);
    first := state.GetInitialFile();
    second := state.GetInitialFile();
  }

  /** The empty argument is not an option, so it is taken as the file. */
  lemma EmptyArgumentIsFile(program: string, rest: seq<string>)
    ensures InitialFile([program, ""] + rest) == Some("")
  {
    var args := [program, ""] + rest;
    assert args[1..] == [""] + rest;
  }

  /** Options before the file are skipped, whatever follows it. */
  lemma OptionsSkipped(program: string, options: seq<string>, file: string, rest: seq<string>)
    requires forall k :: 0 <= k < |options| ==> IsOption(options[k])
    requires !IsOption(file)
    ensures InitialFile([program] + options + [file] + rest) == Some(file)
  {
    var args := [program] + options + [file] + rest;
    assert args[|options| + 1] == file;
    var r := InitialFile(args);
    assert r.Some?;
    var i :| 1 <= i < |args| && args[i] == r.value && !IsOption(args[i]) && forall j :: 1 <= j < i ==> IsOption(args[j]);
    assert args[|options| + 1] == file;
    assert forall k :: 1 <= k <= |options| ==> args[k] == options[k - 1];
  }
}

/**
 * The command lines the extension spawns: `solargraph`, `yard` and `gem`,
 * each run through `bundle exec` when the workspace uses Bundler, in a
 * shell, and in the workspace root when there is one.
 */
module Commands {
  import opened Js

  /** The settings the command lines depend on. */
  datatype Settings = Settings(useBundler: bool, commandPath: string, rootPath: Option<string>)

  /** The options object passed to `spawn`. */
  datatype SpawnOptions = SpawnOptions(shell: bool, cwd: Option<string>)

  /** One call of `child_process.spawn(program, args, options)`. */
  datatype Spawn = Spawn(program: string, args: seq<string>, options: SpawnOptions)

  /** `vscode.workspace.rootPath` is truthy: present and not empty. */
  predicate HasRoot(s: Settings)
  {
    s.rootPath.Some? && s.rootPath.value != ""
  }

  /** `{ shell: true }`, with `cwd` added when the root path is truthy. */
  method Options(s: Settings) returns (env: SpawnOptions)
    ensures env.shell
    ensures env.cwd.Some? <==> HasRoot(s)
    ensures env.cwd.Some? ==> env.cwd == s.rootPath
  {
    env := SpawnOptions(true, None);
    if HasRoot(s) {
      env := env.(cwd := s.rootPath);
    }
  }

  /** `spawn(cmd.shift(), cmd.concat(args), env)`: the first word is the program, the others precede the caller's arguments. */
  method SpawnWords(cmd: seq<string>, args: seq<string>, s: Settings) returns (sp: Spawn)
    requires |cmd| > 0
    ensures [sp.program] + sp.args == cmd + args
    ensures sp.options.shell && (sp.options.cwd.Some? <==> HasRoot(s))
  {
    var env := Options(s);
    var program := cmd[0];
    var rest := cmd[1..];
    sp := Spawn(program, rest + args, env);
  }

  /** `solargraphCommand(args)`: `bundle exec solargraph args`, or the configured command path with the arguments. */
  method SolargraphCommand(args: seq<string>, s: Settings) returns (sp: Spawn)
    ensures s.useBundler ==> sp.program == "bundle" && sp.args == ["exec", "solargraph"] + args
    ensures !s.useBundler ==> sp.program == s.commandPath && sp.args == args
    ensures sp.options.shell && (sp.options.cwd.Some? <==> HasRoot(s))
  {
    var cmd: seq<string> := [];
    if s.useBundler {
      cmd := cmd + ["bundle", "exec", "solargraph"];
    } else {
      cmd := cmd + [s.commandPath];
    }
    sp := SpawnWords(cmd, args, s);
    WordsSplit(sp, cmd, args);
  }

  /** `yardCommand(args)`: `bundle exec yard args` or `yard args`. */
  method YardCommand(args: seq<string>, s: Settings) returns (sp: Spawn)
    ensures s.useBundler ==> sp.program == "bundle" && sp.args == ["exec", "yard"] + args
    ensures !s.useBundler ==> sp.program == "yard" && sp.args == args
    ensures sp.options.shell && (sp.options.cwd.Some? <==> HasRoot(s))
  {
    sp := ToolCommand("yard", args, s);
  }

  /** `gemCommand(args)`: `bundle exec gem args` or `gem args`. */
  method GemCommand(args: seq<string>, s: Settings) returns (sp: Spawn)
    ensures s.useBundler ==> sp.program == "bundle" && sp.args == ["exec", "gem"] + args
    ensures !s.useBundler ==> sp.program == "gem" && sp.args == args
    ensures sp.options.shell && (sp.options.cwd.Some? <==> HasRoot(s))
  {
    sp := ToolCommand("gem", args, s);
  }

  /** The shape `yardCommand` and `gemCommand` share: push `bundle exec` when asked, then the tool. */
  method ToolCommand(tool: string, args: seq<string>, s: Settings) returns (sp: Spawn)
    ensures s.useBundler ==> sp.program == "bundle" && sp.args == ["exec", tool] + args
    ensures !s.useBundler ==> sp.program == tool && sp.args == args
    ensures sp.options.shell && (sp.options.cwd.Some? <==> HasRoot(s))
  {
    var cmd: seq<string> := [];
    if s.useBundler {
      cmd := cmd + ["bundle", "exec"];
    }
    cmd := cmd + [tool];
    sp := SpawnWords(cmd, args, s);
    WordsSplit(sp, cmd, args);
  }

  /** Reading the program and its arguments back from the words of the command line. */
  lemma WordsSplit(sp: Spawn, cmd: seq<string>, args: seq<string>)
    requires |cmd| > 0 && [sp.program] + sp.args == cmd + args
    ensures sp.program == cmd[0] && sp.args == cmd[1..] + args
  {
    assert ([sp.program] + sp.args)[0] == sp.program;
    assert ([sp.program] + sp.args)[1..] == sp.args;
    assert (cmd + args)[1..] == cmd[1..] + args;
  }

  /** The caller's arguments always come last, in their own order, whichever prefix precedes them. */
  lemma ArgumentsLast(sp: Spawn, cmd: seq<string>, args: seq<string>)
    requires |cmd| > 0 && [sp.program] + sp.args == cmd + args
    ensures |sp.args| >= |args| && sp.args[|sp.args| - |args|..] == args
  {
    WordsSplit(sp, cmd, args);
    assert sp.args == cmd[1..] + args;
  }
}

/** Start-up and the dispatch of submitted lines (`main`, `run_function`,
    `load_rshrc`'s file handling), as a pure state machine. Child processes
    are recorded as effects instead of being run. */
module Shell {
  import opened Options
  import opened Text
  import opened Paths
  import opened RcConfig
  import opened Alias
  import opened Host

  /** The search path every child process is given. */
  const MinimalPath := "/bin:/usr/bin"

  /** The prompt used when the run-control file sets none. */
  const DefaultPrompt := "\U{1F980}\U{2753}> "

  /** One launch of `sh -c script` with environment `env` (the session's
      environment as it stands, with PATH overridden), in the working
      directory `dir` that the shell process has at that moment. */
  datatype Effect = Run(script: string, env: map<string, string>, dir: string)

  /** The messages the shell writes to standard error. */
  datatype Diagnostic =
    | CdFailed
    | UnaliasMissingArgument
    | ExportInvalidSyntax
    | ExportMissingArgument
    | SourceFileNotFound
    | SourceMissingFile
    | FuncMissingName
    | ReadFailed

  /** The session: the configuration, the variables the process has set in
      its own environment (over the inherited environment), the working
      directory, whether the loop has ended, and what it has done so far. */
  datatype State = State(
    config: Config,
    env: map<string, string>,
    cwd: string,
    terminated: bool,
    effects: seq<Effect>,
    errors: seq<Diagnostic>)

  /** What the line editor hands back. */
  datatype Input = Line(text: string) | EndOfInput | ReadError

  /** `ensure_path`. */
  function EnsurePath(env: map<string, string>): map<string, string> {
    env["PATH" := MinimalPath]
  }

  /** A child launched from the current environment and working directory
      `dir`: it inherits every variable except PATH, which is forced to the
      minimal search path, and it starts in `dir`. */
  function Spawn(env: map<string, string>, dir: string, script: string): (e: Effect)
    ensures e.script == script && e.dir == dir
    ensures "PATH" in e.env && e.env["PATH"] == MinimalPath
    ensures forall k :: k != "PATH" ==> (k in e.env <==> k in env)
    ensures forall k :: k != "PATH" && k in env ==> e.env[k] == env[k]
  {
    Run(script, EnsurePath(env), dir)
  }

  /** One child per script, in order, all in the same directory. */
  function SpawnAll(env: map<string, string>, dir: string, scripts: seq<string>): (es: seq<Effect>)
    ensures |es| == |scripts|
    ensures forall i :: 0 <= i < |es| ==> es[i] == Spawn(env, dir, scripts[i])
  {
    seq(|scripts|, i requires 0 <= i < |scripts| => Spawn(env, dir, scripts[i]))
  }

  /** Every child so far was given the minimal search path. */
  predicate PathEnforced(effects: seq<Effect>) {
    forall i :: 0 <= i < |effects| ==> "PATH" in effects[i].env && effects[i].env["PATH"] == MinimalPath
  }

  // ---------------------------------------------------------------------
  // The run-control file

  /** `load_rshrc` always reads `~/.rshrc`. */
  function RcPath(w: World): string {
    ExpandTilde("~/.rshrc", w.home)
  }

  /** The lines of `~/.rshrc`; none when it cannot be opened. */
  function RcLines(w: World, cwd: string): seq<string> {
    w.readLines(cwd, RcPath(w)).UnwrapOr([])
  }

  /** The process-environment side of loading: every `export` directive
      sets its variable, in file order. */
  function Exports(env: map<string, string>, ds: seq<Directive>): map<string, string>
    decreases |ds|
  {
    if ds == [] then env
    else Exports(if ds[0].Export? then env[ds[0].name := ds[0].value] else env, ds[1..])
  }

  /** Setting the exported variables one by one amounts to overlaying the
      variables the same directives set from nothing. */
  lemma {:induction false} ExportsOverlay(env: map<string, string>, ds: seq<Directive>)
    ensures Exports(env, ds) == env + Exports(map[], ds)
    decreases |ds|
  {
    if ds != [] {
      var d := ds[0];
      if d.Export? {
        ExportsOverlay(env[d.name := d.value], ds[1..]);
        ExportsOverlay(map[][d.name := d.value], ds[1..]);
        var e := Exports(map[], ds[1..]);
        assert env[d.name := d.value] + e == env + (map[][d.name := d.value] + e);
      } else {
        ExportsOverlay(env, ds[1..]);
      }
    }
  }

  /** The `env_vars` table a load builds evolves exactly like the process
      environment. */
  lemma {:induction false} EnvVarsAreExports(cfg: Config, ds: seq<Directive>)
    ensures ApplyAll(cfg, ds).envVars == Exports(cfg.envVars, ds)
    decreases |ds|
  {
    if ds != [] {
      EnvVarsAreExports(Apply(cfg, ds[0]), ds[1..]);
    }
  }

  /** Loading the run-control lines sets in the process environment exactly
      the `env_vars` table the load produces, over what was there. */
  lemma LoadExports(env: map<string, string>, lines: seq<string>)
    ensures Exports(env, Directives(lines)) == env + Load(Empty, lines).envVars
  {
    ExportsOverlay(env, Directives(lines));
    EnvVarsAreExports(Empty, Directives(lines));
  }

  // ---------------------------------------------------------------------
  // Start-up

  /** `main` up to the first prompt: PATH is forced, `~/.rshrc` is loaded
      (its exports reach the process environment), PATH is forced again,
      the prompt defaults, and the start hooks run in order. */
  function Startup(w: World, cwd: string): (s: State)
    ensures !s.terminated && s.errors == [] && s.cwd == cwd
    ensures "PATH" in s.env && s.env["PATH"] == MinimalPath
    ensures PathEnforced(s.effects)
    // the configuration is the one loaded from `~/.rshrc`, except that an
    // empty prompt is replaced by the default one
    ensures s.config == Load(Empty, RcLines(w, cwd)).(prompt := s.config.prompt)
    ensures Load(Empty, RcLines(w, cwd)).prompt != "" ==> s.config.prompt == Load(Empty, RcLines(w, cwd)).prompt
    ensures Load(Empty, RcLines(w, cwd)).prompt == "" ==> s.config.prompt == DefaultPrompt
    ensures s.config.prompt != ""
    ensures s.effects == SpawnAll(s.env, s.cwd, s.config.onStart)
  {
    var lines := RcLines(w, cwd);
    var cfg := Load(Empty, lines);
    var env := EnsurePath(Exports(EnsurePath(map[]), Directives(lines)));
    var cfg' := if cfg.prompt == "" then cfg.(prompt := DefaultPrompt) else cfg;
    State(cfg', env, cwd, false, SpawnAll(env, cwd, cfg'.onStart), [])
  }

  // ---------------------------------------------------------------------
  // The built-ins

  /** `exit`: every exit hook runs, in order, then the loop ends. */
  function Exit(s: State): State {
    s.(effects := s.effects + SpawnAll(s.env, s.cwd, s.config.onExit), terminated := true)
  }

  /** `cd [DIR]`: DIR defaults to `~` and is tilde-expanded. */
  function ChangeDir(w: World, s: State, arg: Option<string>): State {
    var path := ExpandTilde(arg.UnwrapOr("~"), w.home);
    match w.changeDir(s.cwd, path)
    case Some(dir) => s.(cwd := dir)
    case None => s.(errors := s.errors + [CdFailed])
  }

  /** `unalias NAME`. */
  function Unalias(s: State, arg: Option<string>): State {
    match arg
    case Some(name) => s.(config := s.config.(aliases := s.config.aliases - {name}))
    case None => s.(errors := s.errors + [UnaliasMissingArgument])
  }

  /** `export NAME=VALUE`: split at the first `=`, then set both the process
      variable and `env_vars`. */
  function ExportVar(s: State, arg: Option<string>): State {
    match arg
    case None => s.(errors := s.errors + [ExportMissingArgument])
    case Some(pair) =>
      match SplitOnce(pair, '=')
      case None => s.(errors := s.errors + [ExportInvalidSyntax])
      case Some((k, v)) => s.(env := s.env[k := v], config := s.config.(envVars := s.config.envVars[k := v]))
  }

  /** `source FILE`: FILE is only checked for existence; what gets merged
      is a fresh load of `~/.rshrc`, whose aliases, functions and variables
      overwrite the current ones. Prompt and hooks are not merged. */
  function Source(w: World, s: State, arg: Option<string>): State {
    match arg
    case None => s.(errors := s.errors + [SourceMissingFile])
    case Some(file) =>
      if !w.pathExists(s.cwd, ExpandTilde(file, w.home)) then
        s.(errors := s.errors + [SourceFileNotFound])
      else
        var lines := RcLines(w, s.cwd);
        var loaded := Load(Empty, lines);
        s.(config := s.config.(
             aliases := s.config.aliases + loaded.aliases,
             functions := s.config.functions + loaded.functions,
             envVars := s.config.envVars + loaded.envVars),
           env := Exports(s.env, Directives(lines)))
  }

  /** `func NAME` (`run_function`): the body of a known function runs; an
      unknown name does nothing. */
  function RunFunction(s: State, arg: Option<string>): State {
    match arg
    case None => s.(errors := s.errors + [FuncMissingName])
    case Some(name) =>
      if name in s.config.functions then
        s.(effects := s.effects + [Spawn(s.env, s.cwd, s.config.functions[name])])
      else s
  }

  /** Any other line: alias-expanded, then handed to `sh -c`. */
  function Delegate(s: State, line: string): State {
    s.(effects := s.effects + [Spawn(s.env, s.cwd, ExpandAlias(line, s.config.aliases))])
  }

  /** The verbs the dispatcher handles itself. */
  const Builtins: set<string> := {"exit", "cd", "help", "alias", "unalias", "export", "set", "source", "func"}

  /** The dispatch `match` on the first token `parts[0]` of the trimmed
      line `line`. Only the first argument of a built-in is ever used. */
  function Dispatch(w: World, s: State, line: string, parts: seq<string>): State {
    if parts == [] then s
    else
      var cmd := parts[0];
      var arg := if |parts| > 1 then Some(parts[1]) else None;
      if cmd == "exit" then Exit(s)
      else if cmd == "cd" then ChangeDir(w, s, arg)
      else if cmd == "help" || cmd == "alias" || cmd == "set" then s
      else if cmd == "unalias" then Unalias(s, arg)
      else if cmd == "export" then ExportVar(s, arg)
      else if cmd == "source" then Source(w, s, arg)
      else if cmd == "func" then RunFunction(s, arg)
      else Delegate(s, line)
  }

  /** One pass of the loop body for a line that was read: trim it, skip it
      if blank, and dispatch on its whitespace-separated tokens. */
  function Step(w: World, s: State, raw: string): State {
    var line := Trim(raw);
    if line == [] then s else Dispatch(w, s, line, Words(line))
  }

  /** What the loop does with one result of the line editor: end of input
      or an interrupt exits at once (no exit hooks); any other read error is
      reported and the loop goes on. */
  function Next(w: World, s: State, input: Input): State {
    match input
    case Line(text) => Step(w, s, text)
    case EndOfInput => s.(terminated := true)
    case ReadError => s.(errors := s.errors + [ReadFailed])
  }

  /** The loop, fed `inputs` until it ends. */
  function Session(w: World, s: State, inputs: seq<Input>): State
    decreases |inputs|
  {
    if inputs == [] || s.terminated then s
    else Session(w, Next(w, s, inputs[0]), inputs[1..])
  }

  // ---------------------------------------------------------------------
  // What every step keeps

  /** `r` is a later state of the same session than `s`: the record of
      children and messages only grows, the prompt and the hooks are never
      changed after start-up, and the PATH policy keeps holding. */
  predicate Extends(s: State, r: State) {
    && s.effects <= r.effects
    && s.errors <= r.errors
    && r.config.prompt == s.config.prompt
    && r.config.onStart == s.config.onStart
    && r.config.onExit == s.config.onExit
    && (PathEnforced(s.effects) ==> PathEnforced(r.effects))
  }

  lemma ExtendsTransitive(a: State, b: State, c: State)
    requires Extends(a, b) && Extends(b, c)
    ensures Extends(a, c)
  {
  }

  /** Appending children launched through `Spawn` keeps the PATH policy. */
  lemma SpawnKeepsPath(effects: seq<Effect>, more: seq<Effect>)
    requires PathEnforced(effects)
    requires forall i :: 0 <= i < |more| ==> "PATH" in more[i].env && more[i].env["PATH"] == MinimalPath
    ensures PathEnforced(effects + more)
  {
    forall i | 0 <= i < |effects + more|
      ensures "PATH" in (effects + more)[i].env && (effects + more)[i].env["PATH"] == MinimalPath
    {
      if i >= |effects| {
        assert (effects + more)[i] == more[i - |effects|];
      }
    }
  }

  /** The built-ins that launch nothing keep the children and the hooks,
      and only add messages. */
  lemma QuietBuiltinExtends(w: World, s: State, line: string, parts: seq<string>)
    requires |parts| > 0 && parts[0] in {"cd", "help", "alias", "set", "unalias", "export", "source"}
    ensures Dispatch(w, s, line, parts).effects == s.effects
    ensures Extends(s, Dispatch(w, s, line, parts))
  {
  }

  /** `exit`, `func` and every line that is not a built-in launch their
      children through `Spawn`. */
  lemma LaunchingBuiltinExtends(w: World, s: State, line: string, parts: seq<string>)
    requires |parts| > 0 && (parts[0] in {"exit", "func"} || parts[0] !in Builtins)
    ensures Extends(s, Dispatch(w, s, line, parts))
  {
    if PathEnforced(s.effects) {
      var cmd := parts[0];
      if cmd == "exit" {
        SpawnKeepsPath(s.effects, SpawnAll(s.env, s.cwd, s.config.onExit));
      } else if cmd == "func" {
        if |parts| > 1 && parts[1] in s.config.functions {
          SpawnKeepsPath(s.effects, [Spawn(s.env, s.cwd, s.config.functions[parts[1]])]);
        }
      } else {
        SpawnKeepsPath(s.effects, [Spawn(s.env, s.cwd, ExpandAlias(line, s.config.aliases))]);
      }
    }
  }

  lemma DispatchExtends(w: World, s: State, line: string, parts: seq<string>)
    ensures Extends(s, Dispatch(w, s, line, parts))
  {
    if parts != [] {
      if parts[0] in {"cd", "help", "alias", "set", "unalias", "export", "source"} {
        QuietBuiltinExtends(w, s, line, parts);
      } else {
        LaunchingBuiltinExtends(w, s, line, parts);
      }
    }
  }

  lemma StepExtends(w: World, s: State, raw: string)
    ensures Extends(s, Step(w, s, raw))
  {
    var line := Trim(raw);
    if line != [] {
      DispatchExtends(w, s, line, Words(line));
    }
  }

  lemma NextExtends(w: World, s: State, input: Input)
    ensures Extends(s, Next(w, s, input))
  {
    if input.Line? {
      StepExtends(w, s, input.text);
    }
  }

  /** Over a whole session, every child process is given the minimal search
      path, whatever the user exported, and prompt and hooks stay as start-up
      left them. */
  lemma {:induction false} SessionExtends(w: World, s: State, inputs: seq<Input>)
    ensures Extends(s, Session(w, s, inputs))
    decreases |inputs|
  {
    if inputs != [] && !s.terminated {
      var t := Next(w, s, inputs[0]);
      NextExtends(w, s, inputs[0]);
      SessionExtends(w, t, inputs[1..]);
      ExtendsTransitive(s, t, Session(w, t, inputs[1..]));
    }
  }

  /** Nothing happens once the loop has ended. */
  lemma SessionStops(w: World, s: State, inputs: seq<Input>)
    requires s.terminated
    ensures Session(w, s, inputs) == s
  {
  }

  /** A complete run of the shell from start-up: every child it ever
      launches, hooks included, gets PATH=/bin:/usr/bin. */
  lemma RunEnforcesPath(w: World, cwd: string, inputs: seq<Input>)
    ensures PathEnforced(Session(w, Startup(w, cwd), inputs).effects)
  {
    SessionExtends(w, Startup(w, cwd), inputs);
  }

  // ---------------------------------------------------------------------
  // Start-up and exit hooks

  /** Before the first prompt, exactly the `func on_start` commands of
      `~/.rshrc` have been launched, once each and in file order. */
  lemma StartupRunsStartHooks(w: World, cwd: string)
    ensures var s := Startup(w, cwd);
      s.effects == SpawnAll(s.env, s.cwd, StartCommands(Directives(RcLines(w, cwd))))
  {
    LoadHooks(Empty, RcLines(w, cwd));
    assert Empty.onStart + StartCommands(Directives(RcLines(w, cwd))) == StartCommands(Directives(RcLines(w, cwd)));
  }

  /** Start-up: the session's variables are what `~/.rshrc` exported,
      except PATH, which the second `ensure_path` forces back. */
  lemma StartupEnv(w: World, cwd: string)
    ensures var s := Startup(w, cwd);
      s.env == (map["PATH" := MinimalPath] + Load(Empty, RcLines(w, cwd)).envVars)["PATH" := MinimalPath]
  {
    var lines := RcLines(w, cwd);
    LoadExports(EnsurePath(map[]), lines);
    assert EnsurePath(map[]) == map["PATH" := MinimalPath];
  }

  /** `exit` runs every exit hook in declared order and ends the loop; end of
      input ends it without running any. */
  lemma ExitRunsExitHooks(w: World, s: State, line: string, parts: seq<string>)
    requires |parts| > 0 && parts[0] == "exit"
    ensures var r := Dispatch(w, s, line, parts);
      r.terminated && r.effects == s.effects + SpawnAll(s.env, s.cwd, s.config.onExit) && r.config == s.config
    ensures Next(w, s, EndOfInput).terminated && Next(w, s, EndOfInput).effects == s.effects
  {
  }

  // ---------------------------------------------------------------------
  // The built-ins, one by one

  /** A blank line is skipped. */
  lemma BlankLineSkipped(w: World, s: State, raw: string)
    requires forall i :: 0 <= i < |raw| ==> IsWhitespace(raw[i])
    ensures Step(w, s, raw) == s
  {
    TrimSpec(raw);
  }

  /** `cd` with no argument is `cd ~`. */
  lemma CdDefaultsToHome(w: World, s: State, line: string, line': string)
    ensures Dispatch(w, s, line, ["cd"]) == Dispatch(w, s, line', ["cd", "~"])
  {
  }

  /** A `cd` that fails leaves the working directory and the configuration
      as they were, and reports one error. */
  lemma CdFailure(w: World, s: State, line: string, parts: seq<string>)
    requires |parts| > 0 && parts[0] == "cd"
    requires w.changeDir(s.cwd, ExpandTilde(if |parts| > 1 then parts[1] else "~", w.home)).None?
    ensures var r := Dispatch(w, s, line, parts);
      r.cwd == s.cwd && r.config == s.config && r.effects == s.effects
      && |r.errors| == |s.errors| + 1 && r.errors[|s.errors|].CdFailed?
  {
  }

  /** A `cd` that succeeds moves the session to the directory the
      operating system resolved, and changes nothing else. */
  lemma CdSuccess(w: World, s: State, line: string, parts: seq<string>)
    requires |parts| > 0 && parts[0] == "cd"
    requires w.changeDir(s.cwd, ExpandTilde(if |parts| > 1 then parts[1] else "~", w.home)).Some?
    ensures Dispatch(w, s, line, parts)
      == s.(cwd := w.changeDir(s.cwd, ExpandTilde(if |parts| > 1 then parts[1] else "~", w.home)).value)
  {
  }

  /** The directory `cd` moves to is the one every later child starts in:
      after a successful `cd DIR`, a delegated line runs in the resolved
      DIR with the same script and environment it would have had before. */
  lemma CdThenDelegate(w: World, s: State, dir: string, raw: string)
    requires w.changeDir(s.cwd, ExpandTilde(dir, w.home)).Some?
    requires Words(raw) != [] && Words(raw)[0] !in Builtins
    ensures var t := Dispatch(w, s, "cd " + dir, ["cd", dir]);
      var r := Step(w, t, raw);
      t.cwd == w.changeDir(s.cwd, ExpandTilde(dir, w.home)).value
      && r.effects == s.effects + [Spawn(s.env, t.cwd, ExpandAlias(Trim(raw), s.config.aliases))]
      && r.effects[|s.effects|].dir == t.cwd
  {
    var t := Dispatch(w, s, "cd " + dir, ["cd", dir]);
    StepDispatchesWords(w, t, raw);
  }

  /** `help`, `alias` and `set` only print: the state does not change,
      whatever follows them (so `alias x=y` at the prompt defines nothing). */
  lemma PrintingBuiltinsChangeNothing(w: World, s: State, line: string, parts: seq<string>)
    requires |parts| > 0 && parts[0] in {"help", "alias", "set"}
    ensures Dispatch(w, s, line, parts) == s
  {
  }

  /** `unalias NAME` removes exactly NAME from the aliases; a name that is
      not an alias leaves the state as it was. */
  lemma UnaliasRemoves(w: World, s: State, line: string, parts: seq<string>)
    requires |parts| > 1 && parts[0] == "unalias"
    ensures var r := Dispatch(w, s, line, parts);
      && r.config.aliases.Keys == s.config.aliases.Keys - {parts[1]}
      && (forall k :: k in r.config.aliases ==> r.config.aliases[k] == s.config.aliases[k])
      && r == s.(config := r.config) && r.config == s.config.(aliases := r.config.aliases)
      && (parts[1] !in s.config.aliases ==> r == s && |r.config.aliases| == |s.config.aliases|)
  {
    var r := Dispatch(w, s, line, parts);
    if parts[1] !in s.config.aliases {
      assert r.config.aliases == s.config.aliases;
    }
  }

  /** `unalias`, `export`, `source` and `func` without an argument report
      the error and change nothing else. */
  lemma MissingArgument(w: World, s: State, line: string, cmd: string)
    requires cmd in {"unalias", "export", "source", "func"}
    ensures var r := Dispatch(w, s, line, [cmd]);
      r == s.(errors := r.errors) && |r.errors| == |s.errors| + 1 && r.errors[..|s.errors|] == s.errors
  {
  }

  /** `export NAME=VALUE` splits its first argument at the first `=` and sets
      NAME to VALUE in `env_vars` and in the process environment; an
      argument without `=` is reported and changes nothing else. */
  lemma ExportSets(w: World, s: State, line: string, parts: seq<string>)
    requires |parts| > 1 && parts[0] == "export"
    ensures var r := Dispatch(w, s, line, parts);
      if '=' in parts[1] then
        exists i :: 0 <= i < |parts[1]| && parts[1][i] == '=' && '=' !in parts[1][..i]
          && r == s.(env := s.env[parts[1][..i] := parts[1][i + 1..]],
                     config := s.config.(envVars := s.config.envVars[parts[1][..i] := parts[1][i + 1..]]))
      else
        r == s.(errors := s.errors + [ExportInvalidSyntax])
  {
    var pair := parts[1];
    if '=' in pair {
      var i := |SplitOnce(pair, '=').value.0|;
      assert pair[..i] == SplitOnce(pair, '=').value.0;
      assert pair[i + 1..] == SplitOnce(pair, '=').value.1;
    }
  }

  /** After `export PATH=...`, the session's PATH is the user's value but the
      next delegated command still runs with the minimal search path. */
  lemma ExportedPathIsNotUsed(w: World, s: State, value: string, cmdLine: string)
    ensures var r := Dispatch(w, s, "export PATH=" + value, ["export", "PATH=" + value]);
      var t := Delegate(r, cmdLine);
      "PATH" in r.env && r.env["PATH"] == value && t.effects[|t.effects| - 1].env["PATH"] == MinimalPath
  {
    SplitOnceAt("PATH", '=', value);
    assert "PATH=" + value == "PATH" + ['='] + value;
  }

  /** `source FILE` with an existing FILE: the aliases, functions and
      variables of a fresh load of `~/.rshrc` overwrite the current ones (the
      loaded value wins on a shared key), the process environment gets the
      loaded variables, and prompt, hooks and working directory stay. */
  lemma SourceMerges(w: World, s: State, line: string, parts: seq<string>)
    requires |parts| > 1 && parts[0] == "source"
    requires w.pathExists(s.cwd, ExpandTilde(parts[1], w.home))
    ensures var r, loaded := Dispatch(w, s, line, parts), Load(Empty, RcLines(w, s.cwd));
      && r.config.aliases == s.config.aliases + loaded.aliases
      && r.config.functions == s.config.functions + loaded.functions
      && r.config.envVars == s.config.envVars + loaded.envVars
      && r.env == s.env + loaded.envVars
      && r.config.prompt == s.config.prompt
      && r.config.onStart == s.config.onStart && r.config.onExit == s.config.onExit
      && r.cwd == s.cwd && r.effects == s.effects && r.errors == s.errors
  {
    assert Dispatch(w, s, line, parts) == Source(w, s, Some(parts[1]));
    LoadExports(s.env, RcLines(w, s.cwd));
  }

  /** Which existing file is named does not matter to `source`: the merged
      configuration comes from `~/.rshrc` either way. */
  lemma SourceIgnoresFile(w: World, s: State, line: string, parts: seq<string>, line': string, parts': seq<string>)
    requires |parts| > 1 && parts[0] == "source" && |parts'| > 1 && parts'[0] == "source"
    requires w.pathExists(s.cwd, ExpandTilde(parts[1], w.home))
    requires w.pathExists(s.cwd, ExpandTilde(parts'[1], w.home))
    ensures Dispatch(w, s, line, parts) == Dispatch(w, s, line', parts')
  {
  }

  /** `source FILE` with a FILE that does not exist reports it and changes
      nothing else. */
  lemma SourceFileAbsent(w: World, s: State, line: string, parts: seq<string>)
    requires |parts| > 1 && parts[0] == "source"
    requires !w.pathExists(s.cwd, ExpandTilde(parts[1], w.home))
    ensures Dispatch(w, s, line, parts) == s.(errors := s.errors + [SourceFileNotFound])
  {
  }

  /** `func NAME` launches NAME's body once when NAME is a function, and is
      a silent no-op otherwise. */
  lemma FuncRunsBody(w: World, s: State, line: string, parts: seq<string>)
    requires |parts| > 1 && parts[0] == "func"
    ensures var r := Dispatch(w, s, line, parts);
      if parts[1] in s.config.functions then
        r == s.(effects := s.effects + [Spawn(s.env, s.cwd, s.config.functions[parts[1]])])
      else r == s
  {
  }

  /** Anything that is not a built-in is alias-expanded and delegated as one
      script; nothing else about the session changes. */
  lemma OtherLinesDelegated(w: World, s: State, line: string, parts: seq<string>)
    requires |parts| > 0 && parts[0] !in Builtins
    ensures var r := Dispatch(w, s, line, parts);
      r == s.(effects := s.effects + [Spawn(s.env, s.cwd, ExpandAlias(line, s.config.aliases))])
  {
  }

  /** A line with no words is skipped; otherwise the verb and arguments
      are the whitespace tokens of the line as typed, and the line that is
      dispatched (and delegated) is the input without its outer
      whitespace. */
  lemma StepDispatchesWords(w: World, s: State, raw: string)
    ensures Step(w, s, raw) == if Words(raw) == [] then s else Dispatch(w, s, Trim(raw), Words(raw))
  {
    WordsOfTrim(raw);
  }

  // ---------------------------------------------------------------------
  // From start-up to `exit`

  /** Feeding one more input to a session is one more loop pass, unless
      the loop has already ended. */
  lemma {:induction false} SessionSnoc(w: World, s: State, inputs: seq<Input>, x: Input)
    ensures var t := Session(w, s, inputs);
      Session(w, s, inputs + [x]) == if t.terminated then t else Next(w, t, x)
    decreases |inputs|
  {
    if inputs == [] {
      assert [] + [x] == [x];
    } else if !s.terminated {
      assert (inputs + [x])[0] == inputs[0] && (inputs + [x])[1..] == inputs[1..] + [x];
      SessionSnoc(w, Next(w, s, inputs[0]), inputs[1..], x);
    }
  }

  /** However a session from start-up went, typing `exit` runs the
      `func on_exit` commands of `~/.rshrc`, each once and in file order,
      and ends the loop. */
  lemma ExitRunsRcExitHooks(w: World, cwd: string, inputs: seq<Input>, raw: string)
    requires !Session(w, Startup(w, cwd), inputs).terminated
    requires Words(raw) != [] && Words(raw)[0] == "exit"
    ensures var s, r := Session(w, Startup(w, cwd), inputs), Session(w, Startup(w, cwd), inputs + [Line(raw)]);
      r.terminated && r.effects == s.effects + SpawnAll(s.env, s.cwd, ExitCommands(Directives(RcLines(w, cwd))))
  {
    var lines := RcLines(w, cwd);
    var s0 := Startup(w, cwd);
    SessionSnoc(w, s0, inputs, Line(raw));
    SessionExtends(w, s0, inputs);
    LoadHooks(Empty, lines);
    assert Empty.onExit + ExitCommands(Directives(lines)) == ExitCommands(Directives(lines));
    StepDispatchesWords(w, Session(w, s0, inputs), raw);
  }
}

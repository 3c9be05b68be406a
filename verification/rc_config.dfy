/** The session configuration (`RshConfig`) and the parser of run-control
    lines that `load_rshrc` applies to every line of the file. */
module RcConfig {
  import opened Options
  import opened Text

  /** `RshConfig`: three lookup tables, the prompt and the two hook lists
      (kept in the order the file declares them). */
  datatype Config = Config(
    aliases: map<string, string>,
    functions: map<string, string>,
    envVars: map<string, string>,
    prompt: string,
    onStart: seq<string>,
    onExit: seq<string>)

  /** `RshConfig::default()`. */
  const Empty := Config(map[], map[], map[], "", [], [])

  /** What one run-control line asks for, once recognised. */
  datatype Directive =
    | Alias(name: string, value: string)
    | Export(name: string, value: string)
    | Prompt(text: string)
    | OnStart(command: string)
    | OnExit(command: string)
    | Function(name: string, body: string)
    | Ignored

  /** The value of an `alias` line loses every leading and trailing double
      quote, then every leading and trailing single quote. */
  function StripQuotes(v: string): (r: string)
    // peeling double quotes off both ends leaves some `u`, and peeling
    // single quotes off both ends of `u` leaves the result
    ensures exists u :: Peeled(v, u, '"') && Peeled(u, r, '\'')
    // so the result never starts or ends with a single quote
    ensures r == [] || (r[0] != '\'' && r[|r| - 1] != '\'')
    // and a value with no quote at either end is kept as it is
    ensures Unquoted(v) ==> r == v
  {
    QuoteTrims(v);
    TrimMatches(TrimMatches(v, '"'), '\'')
  }

  /** The two trims of `StripQuotes`, one fact at a time. */
  lemma QuoteTrims(v: string)
    ensures var u := TrimMatches(v, '"'); var r := TrimMatches(u, '\'');
      && (exists u' :: Peeled(v, u', '"') && Peeled(u', r, '\''))
      && (r == [] || (r[0] != '\'' && r[|r| - 1] != '\''))
      && (Unquoted(v) ==> r == v)
  {
    var u := TrimMatches(v, '"');
    var r := TrimMatches(u, '\'');
    assert Peeled(v, u, '"') && Peeled(u, r, '\'');
    PeelEnds(u, r, '\'');
    if Unquoted(v) {
      TrimByUnchanged(v, x => x == '"');
      TrimByUnchanged(v, x => x == '\'');
    }
  }

  /** A value wrapped in one pair of matching quotes loses exactly them. */
  lemma QuotesStripped(q: char, v: string)
    requires q == '"' || q == '\''
    requires Unquoted(v)
    ensures StripQuotes([q] + v + [q]) == v
  {
    var w := [q] + v + [q];
    if q == '"' {
      TrimByPadded([q], v, [q], x => x == '"');
      TrimByUnchanged(v, x => x == '\'');
    } else {
      assert w[0] == q && w[|w| - 1] == q;
      TrimByUnchanged(w, x => x == '"');
      TrimByPadded([q], v, [q], x => x == '\'');
    }
  }

  /** The `NAME=VALUE` part of an `alias` line. */
  function AliasDirective(rest: string): Directive {
    match SplitOnce(rest, '=')
    case None => Ignored
    case Some((k, v)) => Alias(Trim(k), StripQuotes(Trim(v)))
  }

  /** The `NAME=VALUE` part of an `export` line. */
  function ExportDirective(rest: string): Directive {
    match SplitOnce(rest, '=')
    case None => Ignored
    case Some((k, v)) => Export(Trim(k), Trim(v))
  }

  /** The `NAME BODY` part of a `func` line: NAME ends at the first space. */
  function FunctionDirective(rest: string): Directive {
    match SplitOnce(rest, ' ')
    case None => Ignored
    case Some((n, b)) => Function(Trim(n), Trim(b))
  }

  /** The six directive forms, each introduced by a fixed prefix. */
  datatype Form = AliasForm | ExportForm | PromptForm | OnStartForm | OnExitForm | FunctionForm

  /** The prefixes `load_rshrc` tries, in its order of priority. */
  const Rules: seq<(string, Form)> := [
    ("alias ", AliasForm),
    ("export ", ExportForm),
    ("prompt ", PromptForm),
    ("func on_start ", OnStartForm),
    ("func on_exit ", OnExitForm),
    ("func ", FunctionForm)
  ]

  /** The directive of form `f`, given the text after its prefix. */
  function Build(f: Form, rest: string): Directive {
    match f
    case AliasForm => AliasDirective(rest)
    case ExportForm => ExportDirective(rest)
    case PromptForm => Prompt(rest)
    case OnStartForm => OnStart(rest)
    case OnExitForm => OnExit(rest)
    case FunctionForm => FunctionDirective(rest)
  }

  /** The first rule whose prefix starts `line` decides; no match means the
      line is ignored. */
  function Recognise(line: string, rules: seq<(string, Form)>): Directive
    decreases |rules|
  {
    if rules == [] then Ignored
    else
      match StripPrefix(line, rules[0].0)
      case Some(rest) => Build(rules[0].1, rest)
      case None => Recognise(line, rules[1..])
  }

  /** Recognises a line the way `load_rshrc` does: trim it, skip blank and
      `#` lines, then try the prefixes of `Rules` in order. */
  function Classify(raw: string): Directive {
    var line := Trim(raw);
    if line == [] || line[0] == '#' then Ignored else Recognise(line, Rules)
  }

  /** The configuration change a directive makes. */
  function Apply(cfg: Config, d: Directive): (r: Config)
    ensures cfg.onStart <= r.onStart && |r.onStart| <= |cfg.onStart| + 1
    ensures cfg.onExit <= r.onExit && |r.onExit| <= |cfg.onExit| + 1
    ensures d.OnStart? || d.OnExit? ==>
              r.functions == cfg.functions && r.aliases == cfg.aliases && r.envVars == cfg.envVars
  {
    match d
    case Alias(k, v) => cfg.(aliases := cfg.aliases[k := v])
    case Export(k, v) => cfg.(envVars := cfg.envVars[k := v])
    case Prompt(p) => cfg.(prompt := p)
    case OnStart(c) => cfg.(onStart := cfg.onStart + [c])
    case OnExit(c) => cfg.(onExit := cfg.onExit + [c])
    case Function(n, b) => cfg.(functions := cfg.functions[n := b])
    case Ignored => cfg
  }

  /** One iteration of the `load_rshrc` loop. */
  function ParseLine(cfg: Config, line: string): (r: Config)
    // the hook lists only ever gain one element at their end
    ensures cfg.onStart <= r.onStart && |r.onStart| <= |cfg.onStart| + 1
    ensures cfg.onExit <= r.onExit && |r.onExit| <= |cfg.onExit| + 1
    // a hook line never defines a function, an alias or a variable
    ensures Classify(line).OnStart? || Classify(line).OnExit? ==>
              r.functions == cfg.functions && r.aliases == cfg.aliases && r.envVars == cfg.envVars
  {
    var d := Classify(line);
    Apply(cfg, d)
  }

  /** Blank lines and comment lines change nothing. */
  lemma ParseLineSkips(cfg: Config, line: string)
    requires Trim(line) == [] || Trim(line)[0] == '#'
    ensures ParseLine(cfg, line) == cfg
  {
  }

  /** Applies directives in order. */
  function ApplyAll(cfg: Config, ds: seq<Directive>): Config
    decreases |ds|
  {
    if ds == [] then cfg else ApplyAll(Apply(cfg, ds[0]), ds[1..])
  }

  /** The directive of each line, in file order. */
  function Directives(lines: seq<string>): (ds: seq<Directive>)
    ensures |ds| == |lines|
    ensures forall i :: 0 <= i < |lines| ==> ds[i] == Classify(lines[i])
  {
    seq(|lines|, i requires 0 <= i < |lines| => Classify(lines[i]))
  }

  /** The loop of `load_rshrc` over the lines of the file: every line is
      parsed against the configuration built so far. */
  function Load(cfg: Config, lines: seq<string>): Config {
    ApplyAll(cfg, Directives(lines))
  }

  /** Loading is the line-by-line fold of `ParseLine`. */
  lemma {:induction false} LoadStep(cfg: Config, lines: seq<string>)
    requires lines != []
    ensures Load(cfg, lines) == Load(ParseLine(cfg, lines[0]), lines[1..])
  {
    assert Directives(lines)[1..] == Directives(lines[1..]);
  }

  // ---------------------------------------------------------------------
  // Last definition wins, for each of the three tables

  datatype Table = AliasTable | FunctionTable | EnvTable

  function TableOf(cfg: Config, t: Table): map<string, string> {
    match t
    case AliasTable => cfg.aliases
    case FunctionTable => cfg.functions
    case EnvTable => cfg.envVars
  }

  /** The key and value a directive stores into table `t`, if any. */
  function Binding(d: Directive, t: Table): Option<(string, string)> {
    match d
    case Alias(k, v) => if t == AliasTable then Some((k, v)) else None
    case Export(k, v) => if t == EnvTable then Some((k, v)) else None
    case Function(n, b) => if t == FunctionTable then Some((n, b)) else None
    case _ => None
  }

  predicate BindsKey(d: Directive, t: Table, k: string) {
    Binding(d, t).Some? && Binding(d, t).value.0 == k
  }

  /** A directive changes table `t` exactly by storing its own binding. */
  lemma ApplyTable(cfg: Config, d: Directive, t: Table)
    ensures var b := Binding(d, t);
            TableOf(Apply(cfg, d), t) ==
              if b.Some? then TableOf(cfg, t)[b.value.0 := b.value.1] else TableOf(cfg, t)
  {
    match d
    case Alias(k, v) =>
    case Export(k, v) =>
    case Function(n, b) =>
    case _ =>
  }

  /** A key that no directive binds keeps its state. */
  lemma {:induction false} ApplyAllUnbound(cfg: Config, ds: seq<Directive>, t: Table, k: string)
    requires forall j :: 0 <= j < |ds| ==> !BindsKey(ds[j], t, k)
    ensures k in TableOf(ApplyAll(cfg, ds), t) <==> k in TableOf(cfg, t)
    ensures k in TableOf(cfg, t) ==> TableOf(ApplyAll(cfg, ds), t)[k] == TableOf(cfg, t)[k]
    decreases |ds|
  {
    if ds != [] {
      assert !BindsKey(ds[0], t, k);
      ApplyTable(cfg, ds[0], t);
      ApplyAllUnbound(Apply(cfg, ds[0]), ds[1..], t, k);
    }
  }

  /** A key ends up holding the value of the last directive that binds it. */
  lemma {:induction false} ApplyAllLastWins(cfg: Config, ds: seq<Directive>, t: Table, i: nat, k: string, v: string)
    requires i < |ds| && Binding(ds[i], t) == Some((k, v))
    requires forall j :: i < j < |ds| ==> !BindsKey(ds[j], t, k)
    ensures k in TableOf(ApplyAll(cfg, ds), t) && TableOf(ApplyAll(cfg, ds), t)[k] == v
    decreases i
  {
    ApplyTable(cfg, ds[0], t);
    if i == 0 {
      ApplyAllUnbound(Apply(cfg, ds[0]), ds[1..], t, k);
    } else {
      ApplyAllLastWins(Apply(cfg, ds[0]), ds[1..], t, i - 1, k, v);
    }
  }

  /** Loading a file: a key that no line of the file binds keeps the state it
      had before. */
  lemma LoadUnbound(cfg: Config, lines: seq<string>, t: Table, k: string)
    requires forall j :: 0 <= j < |lines| ==> !BindsKey(Classify(lines[j]), t, k)
    ensures k in TableOf(Load(cfg, lines), t) <==> k in TableOf(cfg, t)
    ensures k in TableOf(cfg, t) ==> TableOf(Load(cfg, lines), t)[k] == TableOf(cfg, t)[k]
  {
    ApplyAllUnbound(cfg, Directives(lines), t, k);
  }

  /** Loading a file: a key holds the value of the last line binding it. */
  lemma LoadLastWins(cfg: Config, lines: seq<string>, t: Table, i: nat, k: string, v: string)
    requires i < |lines| && Binding(Classify(lines[i]), t) == Some((k, v))
    requires forall j :: i < j < |lines| ==> !BindsKey(Classify(lines[j]), t, k)
    ensures k in TableOf(Load(cfg, lines), t) && TableOf(Load(cfg, lines), t)[k] == v
  {
    ApplyAllLastWins(cfg, Directives(lines), t, i, k, v);
  }

  // ---------------------------------------------------------------------
  // The prompt: last `prompt` line wins

  lemma {:induction false} ApplyAllNoPrompt(cfg: Config, ds: seq<Directive>)
    requires forall j :: 0 <= j < |ds| ==> !ds[j].Prompt?
    ensures ApplyAll(cfg, ds).prompt == cfg.prompt
    decreases |ds|
  {
    if ds != [] {
      ApplyAllNoPrompt(Apply(cfg, ds[0]), ds[1..]);
    }
  }

  lemma {:induction false} ApplyAllPromptLastWins(cfg: Config, ds: seq<Directive>, i: nat)
    requires i < |ds| && ds[i].Prompt?
    requires forall j :: i < j < |ds| ==> !ds[j].Prompt?
    ensures ApplyAll(cfg, ds).prompt == ds[i].text
    decreases i
  {
    if i == 0 {
      ApplyAllNoPrompt(Apply(cfg, ds[0]), ds[1..]);
    } else {
      ApplyAllPromptLastWins(Apply(cfg, ds[0]), ds[1..], i - 1);
    }
  }

  /** Loading a file: the prompt is the text of its last `prompt` line. */
  lemma LoadPrompt(cfg: Config, lines: seq<string>, i: nat)
    requires i < |lines| && Classify(lines[i]).Prompt?
    requires forall j :: i < j < |lines| ==> !Classify(lines[j]).Prompt?
    ensures Load(cfg, lines).prompt == Classify(lines[i]).text
  {
    ApplyAllPromptLastWins(cfg, Directives(lines), i);
  }

  /** Loading a file without a `prompt` line keeps the prompt. */
  lemma LoadNoPrompt(cfg: Config, lines: seq<string>)
    requires forall j :: 0 <= j < |lines| ==> !Classify(lines[j]).Prompt?
    ensures Load(cfg, lines).prompt == cfg.prompt
  {
    ApplyAllNoPrompt(cfg, Directives(lines));
  }

  // ---------------------------------------------------------------------
  // Hooks: appended in file order

  /** The start hook a directive declares, if any. */
  function StartOf(d: Directive): seq<string> {
    if d.OnStart? then [d.command] else []
  }

  /** The exit hook a directive declares, if any. */
  function ExitOf(d: Directive): seq<string> {
    if d.OnExit? then [d.command] else []
  }

  /** The commands of the `func on_start` directives, in order. */
  function StartCommands(ds: seq<Directive>): seq<string>
    decreases |ds|
  {
    if ds == [] then [] else StartOf(ds[0]) + StartCommands(ds[1..])
  }

  /** The commands of the `func on_exit` directives, in order. */
  function ExitCommands(ds: seq<Directive>): seq<string>
    decreases |ds|
  {
    if ds == [] then [] else ExitOf(ds[0]) + ExitCommands(ds[1..])
  }

  /** One directive appends its own hooks and no others. */
  lemma ApplyHooks(cfg: Config, d: Directive)
    ensures Apply(cfg, d).onStart == cfg.onStart + StartOf(d)
    ensures Apply(cfg, d).onExit == cfg.onExit + ExitOf(d)
  {
  }

  /** The start hooks grow by exactly the `on_start` commands, in order. */
  lemma {:induction false} ApplyAllStart(cfg: Config, ds: seq<Directive>)
    ensures ApplyAll(cfg, ds).onStart == cfg.onStart + StartCommands(ds)
    decreases |ds|
  {
    if ds != [] {
      var next := Apply(cfg, ds[0]);
      ApplyHooks(cfg, ds[0]);
      ApplyAllStart(next, ds[1..]);
      assert cfg.onStart + StartOf(ds[0]) + StartCommands(ds[1..])
          == cfg.onStart + (StartOf(ds[0]) + StartCommands(ds[1..]));
    }
  }

  /** The exit hooks grow by exactly the `on_exit` commands, in order. */
  lemma {:induction false} ApplyAllExit(cfg: Config, ds: seq<Directive>)
    ensures ApplyAll(cfg, ds).onExit == cfg.onExit + ExitCommands(ds)
    decreases |ds|
  {
    if ds != [] {
      var next := Apply(cfg, ds[0]);
      ApplyHooks(cfg, ds[0]);
      ApplyAllExit(next, ds[1..]);
      assert cfg.onExit + ExitOf(ds[0]) + ExitCommands(ds[1..])
          == cfg.onExit + (ExitOf(ds[0]) + ExitCommands(ds[1..]));
    }
  }

  /** Loading a file appends each of its hooks, in file order, after the
      hooks already present. */
  lemma LoadHooks(cfg: Config, lines: seq<string>)
    ensures Load(cfg, lines).onStart == cfg.onStart + StartCommands(Directives(lines))
    ensures Load(cfg, lines).onExit == cfg.onExit + ExitCommands(Directives(lines))
  {
    ApplyAllStart(cfg, Directives(lines));
    ApplyAllExit(cfg, Directives(lines));
  }

  // ---------------------------------------------------------------------
  // Writing a directive as a run-control line, and reading it back

  /** The line syntax of each directive, as the help text documents it. */
  function Render(d: Directive): string {
    match d
    case Alias(n, v) => "alias " + n + "=" + v
    case Export(n, v) => "export " + n + "=" + v
    case Prompt(p) => "prompt " + p
    case OnStart(c) => "func on_start " + c
    case OnExit(c) => "func on_exit " + c
    case Function(n, b) => "func " + n + " " + b
    case Ignored => ""
  }

  /** Neither end of `s` is whitespace. */
  predicate Trimmed(s: string) {
    s == [] || (!IsWhitespace(s[0]) && !IsWhitespace(s[|s| - 1]))
  }

  /** Neither end of `s` is a quote character. */
  predicate Unquoted(s: string) {
    s == [] || (s[0] !in "\"'" && s[|s| - 1] !in "\"'")
  }

  /** The directives that survive a trip through their line syntax: names
      and values already trimmed, alias values not quoted, no `=` in a
      key, function names that are single words other than the two hook
      names, and non-empty texts where the line would otherwise end in the
      prefix's space. */
  predicate WellFormed(d: Directive) {
    match d
    case Alias(n, v) => '=' !in n && Trimmed(n) && Trimmed(v) && Unquoted(v)
    case Export(n, v) => '=' !in n && Trimmed(n) && Trimmed(v)
    case Prompt(p) => p != [] && !IsWhitespace(p[|p| - 1])
    case OnStart(c) => c != [] && !IsWhitespace(c[|c| - 1])
    case OnExit(c) => c != [] && !IsWhitespace(c[|c| - 1])
    case Function(n, b) => IsToken(n) && n != "on_start" && n != "on_exit" && b != [] && Trimmed(b)
    case Ignored => true
  }

  /** A line whose ends are not whitespace is classified as it stands. */
  lemma ClassifyTrimmed(line: string)
    requires line != [] && !IsWhitespace(line[0]) && !IsWhitespace(line[|line| - 1]) && line[0] != '#'
    ensures Classify(line) == Recognise(line, Rules)
  {
    TrimByUnchanged(line, IsWhitespace);
  }

  /** A line made of a prefix that starts with neither whitespace nor `#`
      and a text that does not end in whitespace is classified as it
      stands. */
  lemma ClassifyPrefixed(prefix: string, rest: string)
    requires prefix != [] && !IsWhitespace(prefix[0]) && prefix[0] != '#'
    requires rest != [] && !IsWhitespace(rest[|rest| - 1])
    ensures Classify(prefix + rest) == Recognise(prefix + rest, Rules)
  {
    var line := prefix + rest;
    assert line[0] == prefix[0] && line[|line| - 1] == rest[|rest| - 1];
    ClassifyTrimmed(line);
  }

  /** The rules before the `k`-th do not match, so the `k`-th is tried. */
  lemma RecogniseFrom(line: string, k: nat)
    requires k < |Rules|
    requires forall j :: 0 <= j < k ==> !(Rules[j].0 <= line)
    ensures Recognise(line, Rules) == Recognise(line, Rules[k..])
  {
    var j := 0;
    while j < k
      invariant j <= k
      invariant Recognise(line, Rules) == Recognise(line, Rules[j..])
    {
      assert Rules[j..][0] == Rules[j] && Rules[j..][1..] == Rules[j + 1..];
      j := j + 1;
    }
  }

  /** The `k`-th rule is the first whose prefix starts `line`, so it builds
      the directive from the text after that prefix. */
  lemma RecogniseRule(line: string, k: nat, rest: string)
    requires k < |Rules|
    requires forall j :: 0 <= j < k ==> !(Rules[j].0 <= line)
    requires line == Rules[k].0 + rest
    ensures Recognise(line, Rules) == Build(Rules[k].1, rest)
  {
    RecogniseFrom(line, k);
    assert Rules[k..][0] == Rules[k];
    assert StripPrefix(line, Rules[k].0) == Some(rest);
  }

  lemma AliasRest(n: string, v: string)
    requires WellFormed(Alias(n, v))
    ensures AliasDirective(n + "=" + v) == Alias(n, v)
  {
    SplitOnceAt(n, '=', v);
    TrimByUnchanged(n, IsWhitespace);
    TrimByUnchanged(v, IsWhitespace);
    TrimByUnchanged(v, x => x == '"');
    TrimByUnchanged(v, x => x == '\'');
  }

  lemma RenderAlias(n: string, v: string)
    requires WellFormed(Alias(n, v))
    ensures Classify(Render(Alias(n, v))) == Alias(n, v)
  {
    var rest := n + "=" + v;
    KeyValueEnd(n, v);
    assert Render(Alias(n, v)) == "alias " + rest;
    ClassifyPrefixed("alias ", rest);
    assert Rules[0] == ("alias ", AliasForm);
    RecogniseRule("alias " + rest, 0, rest);
    AliasRest(n, v);
  }

  /** `NAME=VALUE` with a trimmed VALUE does not end in whitespace. */
  lemma KeyValueEnd(n: string, v: string)
    requires Trimmed(v)
    ensures var r := n + "=" + v; r != [] && !IsWhitespace(r[|r| - 1])
  {
    var r := n + "=" + v;
    if v == [] {
      assert r[|r| - 1] == '=';
    } else {
      assert r[|r| - 1] == v[|v| - 1];
    }
  }

  lemma ExportRest(n: string, v: string)
    requires WellFormed(Export(n, v))
    ensures ExportDirective(n + "=" + v) == Export(n, v)
  {
    SplitOnceAt(n, '=', v);
    TrimByUnchanged(n, IsWhitespace);
    TrimByUnchanged(v, IsWhitespace);
  }

  lemma ExportLineRecognised(line: string, rest: string)
    requires line == "export " + rest
    ensures Recognise(line, Rules) == ExportDirective(rest)
  {
    assert !(Rules[0].0 <= line) by { assert Rules[0].0[0] != line[0]; }
    assert Rules[1] == ("export ", ExportForm);
    RecogniseRule(line, 1, rest);
  }

  lemma RenderExport(n: string, v: string)
    requires WellFormed(Export(n, v))
    ensures Classify(Render(Export(n, v))) == Export(n, v)
  {
    var rest := n + "=" + v;
    var line := "export " + rest;
    KeyValueEnd(n, v);
    assert Render(Export(n, v)) == line;
    ClassifyPrefixed("export ", rest);
    ExportLineRecognised(line, rest);
    ExportRest(n, v);
  }

  lemma RenderPrompt(p: string)
    requires WellFormed(Prompt(p))
    ensures Classify(Render(Prompt(p))) == Prompt(p)
  {
    var line := "prompt " + p;
    ClassifyPrefixed("prompt ", p);
    forall j | 0 <= j < 2 ensures !(Rules[j].0 <= line) {
      assert Rules[j].0[0] != line[0];
    }
    assert Rules[2] == ("prompt ", PromptForm);
    RecogniseRule(line, 2, p);
  }

  /** A line starting with `func on_` matches none of the first three
      prefixes. */
  lemma NotBeforeHooks(line: string)
    requires "func on_" <= line
    ensures forall j :: 0 <= j < 3 ==> !(Rules[j].0 <= line)
  {
    forall j | 0 <= j < 3 ensures !(Rules[j].0 <= line) {
      assert Rules[j].0[0] != line[0];
    }
  }

  /** A line starting with `func on_e` is not an `on_start` line. */
  lemma NotStartHook(line: string)
    requires "func on_e" <= line
    ensures !(Rules[3].0 <= line)
  {
    assert Rules[3].0[8] != line[8];
  }

  lemma StartLineRecognised(line: string, rest: string)
    requires line == "func on_start " + rest
    ensures Recognise(line, Rules) == OnStart(rest)
  {
    assert line[..8] == "func on_";
    NotBeforeHooks(line);
    assert Rules[3] == ("func on_start ", OnStartForm);
    RecogniseRule(line, 3, rest);
  }

  lemma ExitLineRecognised(line: string, rest: string)
    requires line == "func on_exit " + rest
    ensures Recognise(line, Rules) == OnExit(rest)
  {
    assert line[..9] == "func on_e";
    assert line[..8] == "func on_";
    NotBeforeHooks(line);
    NotStartHook(line);
    assert Rules[4] == ("func on_exit ", OnExitForm);
    RecogniseRule(line, 4, rest);
  }

  lemma RenderOnStart(c: string)
    requires WellFormed(OnStart(c))
    ensures Classify(Render(OnStart(c))) == OnStart(c)
  {
    ClassifyPrefixed("func on_start ", c);
    StartLineRecognised("func on_start " + c, c);
  }

  lemma RenderOnExit(c: string)
    requires WellFormed(OnExit(c))
    ensures Classify(Render(OnExit(c))) == OnExit(c)
  {
    ClassifyPrefixed("func on_exit ", c);
    ExitLineRecognised("func on_exit " + c, c);
  }

  /** `func NAME ...` is not a hook line unless NAME is the hook's word. */
  lemma NotHookPrefix(word: string, n: string, rest: string)
    requires IsToken(word) && ' ' !in n && n != word
    ensures !("func " + word + " " <= "func " + n + " " + rest)
  {
    var p, line := "func " + word + " ", "func " + n + " " + rest;
    if |n| < |word| {
      assert line[5 + |n|] == ' ' && p[5 + |n|] == word[|n|];
    } else if |n| > |word| {
      assert n[|word|] in n;
      assert p[5 + |word|] == ' ' && line[5 + |word|] == n[|word|];
    } else {
      assert exists i :: 0 <= i < |n| && n[i] != word[i];
      var i :| 0 <= i < |n| && n[i] != word[i];
      assert line[5 + i] == n[i] && p[5 + i] == word[i];
    }
  }

  lemma FunctionRest(n: string, b: string)
    requires WellFormed(Function(n, b))
    ensures FunctionDirective(n + " " + b) == Function(n, b)
  {
    assert ' ' !in n;
    SplitOnceAt(n, ' ', b);
    TrimByUnchanged(n, IsWhitespace);
    TrimByUnchanged(b, IsWhitespace);
  }

  /** A `func NAME BODY` line does not start with a hook prefix. */
  lemma NotHookLine(n: string, b: string)
    requires ' ' !in n && n != "on_start" && n != "on_exit"
    ensures !("func on_start " <= "func " + n + " " + b)
    ensures !("func on_exit " <= "func " + n + " " + b)
  {
    NotHookPrefix("on_start", n, b);
    NotHookPrefix("on_exit", n, b);
    assert "func on_start " == "func " + "on_start" + " ";
    assert "func on_exit " == "func " + "on_exit" + " ";
  }

  /** A line starting with `f` that is not a hook line matches none of the
      first five prefixes, so only the last rule is left to try. */
  lemma NoEarlierRule(line: string)
    requires line != [] && line[0] == 'f'
    requires !("func on_start " <= line) && !("func on_exit " <= line)
    ensures Recognise(line, Rules) == Recognise(line, Rules[5..])
  {
    forall j | 0 <= j < 3 ensures !(Rules[j].0 <= line) {
      assert Rules[j].0[0] != 'f';
    }
    RecogniseFrom(line, 5);
  }

  /** A `func` line that is not a hook line reaches the last rule. */
  lemma FunctionLineRecognised(line: string, rest: string)
    requires line == "func " + rest
    requires !("func on_start " <= line) && !("func on_exit " <= line)
    ensures Recognise(line, Rules) == FunctionDirective(rest)
  {
    assert line[0] == 'f';
    NoEarlierRule(line);
    assert Rules[5..][0] == ("func ", FunctionForm);
    assert StripPrefix(line, "func ") == Some(rest);
  }

  lemma RenderFunction(n: string, b: string)
    requires WellFormed(Function(n, b))
    ensures Classify(Render(Function(n, b))) == Function(n, b)
  {
    var rest := n + " " + b;
    assert rest[|rest| - 1] == b[|b| - 1];
    assert Render(Function(n, b)) == "func " + rest;
    ClassifyPrefixed("func ", rest);
    assert ' ' !in n;
    NotHookLine(n, b);
    FunctionLineRecognised("func " + rest, rest);
    FunctionRest(n, b);
  }

  /** Reading back the line written for a well-formed directive gives the
      directive again. */
  lemma ClassifyRender(d: Directive)
    requires WellFormed(d)
    ensures Classify(Render(d)) == d
  {
    match d
    case Alias(n, v) => RenderAlias(n, v);
    case Export(n, v) => RenderExport(n, v);
    case Prompt(p) => RenderPrompt(p);
    case OnStart(c) => RenderOnStart(c);
    case OnExit(c) => RenderOnExit(c);
    case Function(n, b) => RenderFunction(n, b);
    case Ignored =>
  }

  // ---------------------------------------------------------------------
  // What each kind of line does, as the line is written

  /** A trimmed line that starts with a rule's prefix skips the blank and
      comment test and goes to the prefix rules. */
  lemma ClassifyPrefixedLine(line: string, prefix: string, rest: string)
    requires Trim(line) == prefix + rest
    requires prefix != [] && prefix[0] != '#'
    ensures Classify(line) == Recognise(prefix + rest, Rules)
  {
    assert (prefix + rest)[0] == prefix[0];
  }

  /** `alias NAME=VALUE` stores the trimmed NAME with the trimmed VALUE
      stripped of its quotes. */
  lemma AliasLine(line: string, k: string, v: string)
    requires Trim(line) == "alias " + k + "=" + v
    requires '=' !in k
    ensures Classify(line) == Alias(Trim(k), StripQuotes(Trim(v)))
  {
    var rest := k + "=" + v;
    assert Trim(line) == "alias " + rest;
    ClassifyPrefixedLine(line, "alias ", rest);
    assert Rules[0] == ("alias ", AliasForm);
    RecogniseRule("alias " + rest, 0, rest);
    SplitOnceAt(k, '=', v);
  }

  lemma ParseAlias(cfg: Config, line: string, k: string, v: string)
    requires Trim(line) == "alias " + k + "=" + v
    requires '=' !in k
    ensures ParseLine(cfg, line) == cfg.(aliases := cfg.aliases[Trim(k) := StripQuotes(Trim(v))])
  {
    AliasLine(line, k, v);
  }

  /** An `alias` line without `=` changes nothing. */
  lemma ParseAliasWithoutEquals(cfg: Config, line: string, rest: string)
    requires Trim(line) == "alias " + rest
    requires '=' !in rest
    ensures ParseLine(cfg, line) == cfg
  {
    ClassifyPrefixedLine(line, "alias ", rest);
    assert Rules[0] == ("alias ", AliasForm);
    RecogniseRule("alias " + rest, 0, rest);
  }

  /** `export NAME=VALUE` stores the trimmed NAME with the trimmed VALUE. */
  lemma ParseExport(cfg: Config, line: string, k: string, v: string)
    requires Trim(line) == "export " + k + "=" + v
    requires '=' !in k
    ensures ParseLine(cfg, line) == cfg.(envVars := cfg.envVars[Trim(k) := Trim(v)])
  {
    var rest := k + "=" + v;
    assert Trim(line) == "export " + rest;
    ClassifyPrefixedLine(line, "export ", rest);
    ExportLineRecognised("export " + rest, rest);
    SplitOnceAt(k, '=', v);
  }

  /** An `export` line without `=` changes nothing. */
  lemma ParseExportWithoutEquals(cfg: Config, line: string, rest: string)
    requires Trim(line) == "export " + rest
    requires '=' !in rest
    ensures ParseLine(cfg, line) == cfg
  {
    ClassifyPrefixedLine(line, "export ", rest);
    ExportLineRecognised("export " + rest, rest);
  }

  /** `prompt TEXT` sets the prompt to TEXT as it stands. */
  lemma ParsePrompt(cfg: Config, line: string, p: string)
    requires Trim(line) == "prompt " + p
    ensures ParseLine(cfg, line) == cfg.(prompt := p)
  {
    var t := "prompt " + p;
    ClassifyPrefixedLine(line, "prompt ", p);
    forall j | 0 <= j < 2 ensures !(Rules[j].0 <= t) {
      assert Rules[j].0[0] != t[0];
    }
    assert Rules[2] == ("prompt ", PromptForm);
    RecogniseRule(t, 2, p);
  }

  /** `func on_start CMD` appends CMD to the start hooks. */
  lemma ParseOnStart(cfg: Config, line: string, c: string)
    requires Trim(line) == "func on_start " + c
    ensures ParseLine(cfg, line) == cfg.(onStart := cfg.onStart + [c])
  {
    ClassifyPrefixedLine(line, "func on_start ", c);
    StartLineRecognised("func on_start " + c, c);
  }

  /** `func on_exit CMD` appends CMD to the exit hooks. */
  lemma ParseOnExit(cfg: Config, line: string, c: string)
    requires Trim(line) == "func on_exit " + c
    ensures ParseLine(cfg, line) == cfg.(onExit := cfg.onExit + [c])
  {
    ClassifyPrefixedLine(line, "func on_exit ", c);
    ExitLineRecognised("func on_exit " + c, c);
  }

  /** `func NAME BODY`, NAME running up to the first space and not being a
      hook word, stores the trimmed NAME with the trimmed BODY. */
  lemma ParseFunction(cfg: Config, line: string, n: string, b: string)
    requires Trim(line) == "func " + n + " " + b
    requires ' ' !in n && n != "on_start" && n != "on_exit"
    ensures ParseLine(cfg, line) == cfg.(functions := cfg.functions[Trim(n) := Trim(b)])
  {
    FunctionLineParts(line, n, b);
  }

  /** The function branch reads `func N B` as N up to the first space. */
  lemma FunctionLineParts(line: string, n: string, b: string)
    requires Trim(line) == "func " + n + " " + b
    requires ' ' !in n && n != "on_start" && n != "on_exit"
    ensures Classify(line) == Function(Trim(n), Trim(b))
  {
    var rest := n + " " + b;
    NotHookLine(n, b);
    assert Trim(line) == "func " + rest;
    ClassifyPrefixedLine(line, "func ", rest);
    FunctionLineRecognised("func " + rest, rest);
    SplitOnceAt(n, ' ', b);
  }

  /** A `func` line with no space after the name changes nothing (so
      `func NAME` alone defines nothing). */
  lemma ParseFunctionWithoutSpace(cfg: Config, line: string, rest: string)
    requires Trim(line) == "func " + rest
    requires ' ' !in rest
    ensures ParseLine(cfg, line) == cfg
  {
    var t := "func " + rest;
    ClassifyPrefixedLine(line, "func ", rest);
    if |t| >= 14 {
      assert t[13] == rest[8] && rest[8] in rest;
    }
    if |t| >= 13 {
      assert t[12] == rest[7] && rest[7] in rest;
    }
    FunctionLineRecognised(t, rest);
  }

  /** A line that is neither blank nor a comment and starts with none of
      the six prefixes changes nothing. */
  lemma ParseUnrecognised(cfg: Config, line: string)
    requires Trim(line) != [] && Trim(line)[0] != '#'
    requires forall k :: 0 <= k < |Rules| ==> !(Rules[k].0 <= Trim(line))
    ensures ParseLine(cfg, line) == cfg
  {
    RecogniseNone(Trim(line));
  }

  /** A line that no prefix starts is not recognised. */
  lemma RecogniseNone(line: string)
    requires forall k :: 0 <= k < |Rules| ==> !(Rules[k].0 <= line)
    ensures Recognise(line, Rules) == Ignored
  {
    RecogniseFrom(line, 5);
    assert Rules[5..][0] == Rules[5] && Rules[5..][1..] == [];
  }

  /** A key padded with whitespace has no `=` when the key has none, and
      trims back to the key. */
  lemma PaddedKey(p0: string, n: string, p1: string)
    requires '=' !in n && Trimmed(n)
    requires forall i :: 0 <= i < |p0| ==> IsWhitespace(p0[i])
    requires forall i :: 0 <= i < |p1| ==> IsWhitespace(p1[i])
    ensures '=' !in p0 + n + p1 && Trim(p0 + n + p1) == n
  {
    var k := p0 + n + p1;
    forall i | 0 <= i < |k| ensures k[i] != '=' {
      if i < |p0| {
        assert k[i] == p0[i];
      } else if i < |p0| + |n| {
        assert k[i] == n[i - |p0|];
      } else {
        assert k[i] == p1[i - |p0| - |n|];
      }
    }
    TrimByPadded(p0, n, p1, IsWhitespace);
  }

  /** A value after whitespace and inside at most one pair of matching
      quotes trims and unquotes back to the value. */
  lemma PaddedValue(p2: string, q: string, v: string)
    requires Trimmed(v) && Unquoted(v)
    requires q == "" || q == "\"" || q == "'"
    requires q + v + q != []
    requires forall i :: 0 <= i < |p2| ==> IsWhitespace(p2[i])
    ensures var qv := q + v + q;
      !IsWhitespace(qv[|qv| - 1]) && StripQuotes(Trim(p2 + qv)) == v
  {
    var qv := q + v + q;
    if q == "" {
      assert qv == v;
    } else {
      assert qv[0] == q[0] && qv[|qv| - 1] == q[0];
    }
    TrimByPadded(p2, qv, [], IsWhitespace);
    assert p2 + qv + [] == p2 + qv;
    if q != "" {
      assert qv == [q[0]] + v + [q[0]];
      QuotesStripped(q[0], v);
    }
  }

  /** An `alias` line whose value part ends in a non-whitespace character
      is already trimmed. */
  lemma AliasLineTrimmed(k: string, r: string)
    requires r != [] && !IsWhitespace(r[|r| - 1])
    ensures Trim("alias " + k + "=" + r) == "alias " + k + "=" + r
  {
    var line := "alias " + k + "=" + r;
    assert line[0] == 'a' && line[|line| - 1] == r[|r| - 1];
    TrimByUnchanged(line, IsWhitespace);
  }

  /** Whitespace around the key and around the value of an `alias` line,
      and one pair of matching quotes around the value, are read away: the
      line still defines the alias it would define without them. */
  lemma AliasPaddedQuoted(n: string, v: string, q: string, p0: string, p1: string, p2: string)
    requires WellFormed(Alias(n, v))
    requires q == "" || q == "\"" || q == "'"
    requires q + v + q != []
    requires forall i :: 0 <= i < |p0| ==> IsWhitespace(p0[i])
    requires forall i :: 0 <= i < |p1| ==> IsWhitespace(p1[i])
    requires forall i :: 0 <= i < |p2| ==> IsWhitespace(p2[i])
    ensures Classify("alias " + (p0 + n + p1) + "=" + (p2 + (q + v + q))) == Alias(n, v)
  {
    var k, qv := p0 + n + p1, q + v + q;
    var line := "alias " + k + "=" + (p2 + qv);
    PaddedKey(p0, n, p1);
    PaddedValue(p2, q, v);
    assert (p2 + qv)[|p2 + qv| - 1] == qv[|qv| - 1];
    AliasLineTrimmed(k, p2 + qv);
    AliasLine(line, k, p2 + qv);
  }

  /** The line `alias ll='ls -la'` defines `ll` as `ls -la`.
      The literal comes in as a parameter fixed by `requires`, so that the
      solver treats it as one term instead of re-expanding it at every use. */
  lemma AliasQuotedExample(cfg: Config, line: string)
    requires line == "alias ll='ls -la'"
    ensures ParseLine(cfg, line).aliases == cfg.aliases["ll" := "ls -la"]
  {
    var n, v := "ll", "ls -la";
    assert WellFormed(Alias(n, v)) by {
      assert '=' !in n && Trimmed(n) && Trimmed(v) && Unquoted(v);
    }
    assert line == "alias " + ([] + n + []) + "=" + ([] + ("'" + v + "'"));
    AliasPaddedQuoted(n, v, "'", [], [], []);
  }
}

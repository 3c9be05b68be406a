/** Alias expansion of a submitted command line (`expand_alias`). */
module Alias {
  import opened Text

  /** `expand_alias(line, aliases)`: when the first whitespace-separated
      token of `line` is an alias, the result is its replacement followed by
      the remaining tokens, each preceded by one space; otherwise `line`
      comes back untouched. */
  function ExpandAlias(line: string, aliases: map<string, string>): (r: string)
    // no tokens, or an unknown first token: the original text, spacing included
    ensures |Words(line)| == 0 || Words(line)[0] !in aliases ==> r == line
    // a known first token: its replacement alone when nothing follows it
    ensures var ws := Words(line);
      |ws| == 1 && ws[0] in aliases ==> r == aliases[ws[0]]
    // ... and otherwise the replacement, one space, the rest joined by single spaces
    ensures var ws := Words(line);
      |ws| > 1 && ws[0] in aliases ==> r == aliases[ws[0]] + " " + Join(ws[1..], " ")
  {
    var parts := Words(line);
    if |parts| > 0 && parts[0] in aliases then
      var rest := Join(parts[1..], " ");
      JoinEmpty(parts[1..], " ");
      if rest == "" then aliases[parts[0]] else aliases[parts[0]] + " " + rest
    else
      line
  }

  /** Expansion is one layer deep: the tokens of the expanded line are the
      tokens of the replacement, as written, followed by the original
      arguments. The replacement's own first token is not looked up again. */
  lemma ExpandAliasWords(line: string, aliases: map<string, string>)
    requires |Words(line)| > 0 && Words(line)[0] in aliases
    ensures Words(ExpandAlias(line, aliases)) == Words(aliases[Words(line)[0]]) + Words(line)[1..]
  {
    var ws := Words(line);
    var rep := aliases[ws[0]];
    if |ws| > 1 {
      assert rep + " " + Join(ws[1..], " ") == rep + [' '] + Join(ws[1..], " ");
      WordsSplit(rep, ' ', Join(ws[1..], " "));
      WordsJoin(ws[1..]);
    }
  }

  /** `g status -s` splits into three tokens.
      The literal comes in as a parameter fixed by `requires`, so that the
      solver treats it as one term instead of re-expanding it at every use. */
  lemma ExampleWords(line: string)
    requires line == "g status -s"
    ensures Words(line) == ["g", "status", "-s"]
  {
    var ws := ["g", "status", "-s"];
    assert IsToken(ws[0]) && IsToken(ws[1]) && IsToken(ws[2]);
    assert Join(ws, " ") == line;
    WordsJoin(ws);
  }

  /** An alias with extra arguments: `g status -s` with `g` aliased to `git`.
      The literal comes in as a parameter fixed by `requires`, so that the
      solver treats it as one term instead of re-expanding it at every use. */
  lemma ExpandAliasExample(line: string, aliases: map<string, string>)
    requires line == "g status -s" && aliases == map["g" := "git"]
    ensures ExpandAlias(line, aliases) == "git status -s"
  {
    ExampleWords(line);
    var ws := Words(line);
    assert ws[0] in aliases && aliases[ws[0]] == "git";
    assert Join(ws[1..], " ") == "status -s";
  }
}

/** cliff.ts: the rows of the top-level usage text and the routing of the
    command line to the `env` handler, a custom command, or the usage text. */
module Cli {
  import opened Wrappers
  import opened Records
  import opened Registry
  import opened CommandUtil
  import opened Help
  import opened Env

  const EnvHelpText: string := "View and modify environment variables (for cliff)"

  function CustomCommands(custom: Option<Entry>): Commands {
    if custom.Some? then custom.value.commands else []
  }

  /** Lines 16-18 and 39-43: the `env` row first, then one row per custom
      command in the entry document's key order. */
  function HelpRows(custom: Option<Entry>): (rows: seq<(string, string)>)
    ensures |rows| == 1 + |CustomCommands(custom)|
    ensures rows[0] == ("env", EnvHelpText)
    ensures forall i :: 0 <= i < |CustomCommands(custom)| ==>
      rows[i + 1] == (CustomCommands(custom)[i].0, CustomCommands(custom)[i].1.helpText)
  {
    var c := CustomCommands(custom);
    [("env", EnvHelpText)] + seq(|c|, i requires 0 <= i < |c| => (c[i].0, c[i].1.helpText))
  }

  /** The first column of the usage rows: `env`, then the custom keys. */
  lemma HelpColumn(custom: Option<Entry>)
    ensures Keys(HelpRows(custom)) == ["env"] + Keys(CustomCommands(custom))
  {
    var rows, c := HelpRows(custom), CustomCommands(custom);
    var column, expected := Keys(rows), ["env"] + Keys(c);
    assert |column| == |expected|;
    forall i | 0 <= i < |column|
      ensures column[i] == expected[i]
    {
      if i > 0 {
        assert rows[i] == (c[i - 1].0, c[i - 1].1.helpText);
        assert expected[i] == Keys(c)[i - 1];
      }
    }
  }

  /** Where the command line goes. */
  datatype Route =
    | RunEnv(subcommand: Option<string>)
    | Invoke(key: string, args: seq<string>, env: EnvEntries)
    | ShowHelp(commands: string)   // the rendered rows of the usage text

  /** The name looked up among the custom commands: with no arguments the
      lookup `customCommands[undefined]` uses the key "undefined". */
  function CommandName(input: seq<string>): string {
    if |input| > 0 then input[0] else "undefined"
  }

  /** The arguments after the command name. */
  function Args(input: seq<string>): seq<string> {
    if |input| > 0 then input[1..] else []
  }

  /** Lines 70-86: `env` goes to the env handler with the next argument as
      its subcommand, even when a custom command is also named `env`; a known
      custom key runs that command with the remaining arguments and the
      environment entries; anything else shows the usage text. */
  function Dispatch(input: seq<string>, custom: Option<Entry>, env: EnvEntries): (r: Route)
    ensures r.RunEnv? <==> |input| > 0 && input[0] == "env"
    ensures r.RunEnv? ==> r.subcommand == if |input| > 1 then Some(input[1]) else None
    ensures r.Invoke? <==> CommandName(input) != "env" && CommandName(input) in Keys(CustomCommands(custom))
    ensures r.Invoke? ==> r.key == CommandName(input) && r.args == Args(input) && r.env == env
    ensures r.ShowHelp? <==> CommandName(input) !in Keys(HelpRows(custom))
    ensures r.ShowHelp? ==> r.commands == RenderCommandHelpText(HelpRows(custom))
  {
    var args := Args(input);
    var commands := CustomCommands(custom);
    var rows := HelpRows(custom);
    HelpColumn(custom);
    FindSpec(commands, CommandName(input));
    if |input| > 0 && input[0] == "env" then RunEnv(if |args| > 0 then Some(args[0]) else None)
    else if Find(commands, CommandName(input)).Some? then Invoke(CommandName(input), args, env)
    else ShowHelp(RenderCommandHelpText(rows))
  }

  /** `run`: read the home's entry document (lines 100-106; malformed text
      throws) and the environment entries, then route the command line. */
  function Run(home: Store, input: seq<string>): (r: Result<Route, Error>)
    ensures r.Failure? <==> home.entry.Malformed?
    ensures r.Success? ==> r.value == Dispatch(input, if home.entry.Parsed? then Some(home.entry.value) else None, ReadEnv(home.files))
  {
    var custom :- GetCustomCommandsFromFolder(home);
    Success(Dispatch(input, custom, ReadEnv(home.files)))
  }

  /** Without an entry document no custom command runs: the command line
      reaches the env handler or the usage text, which lists `env` alone. */
  lemma RunWithoutEntry(home: Store, input: seq<string>)
    requires home.entry.Missing? || home.entry.Blank?
    ensures var r := Run(home, input);
            && r.Success?
            && !r.value.Invoke?
            && (r.value.ShowHelp? ==> r.value.commands == RenderCommandHelpText([("env", EnvHelpText)]))
  {
    assert HelpRows(None) == [("env", EnvHelpText)];
  }
}

/** commands/reset.ts: back to the factory state once the user confirms. */
module ResetCmd {
  import opened Registry
  import opened Env

  const CommandsDir: string := "commands"

  /** A path inside the home's `commands` directory, or the directory itself. */
  predicate UnderCommands(p: string) {
    p == CommandsDir || (|p| > |CommandsDir| && p[..|CommandsDir| + 1] == CommandsDir + "/")
  }

  /** `resetCommand`: unless confirmed nothing happens; otherwise the
      `commands` directory and `entry.json` are removed (`force: true`: their
      absence is no error) and `package.json` is rewritten as `default`. */
  function ResetCommand(home: Store, confirmed: bool, default: Manifest): (r: Store)
    ensures !confirmed ==> r == home
    ensures confirmed ==> r.entry.Missing? && r.manifest == Parsed(default)
    ensures confirmed ==> forall p :: p in r.files <==> p in home.files && !UnderCommands(p)
    ensures forall p :: p in r.files ==> p in home.files && r.files[p] == home.files[p]
  {
    if !confirmed then home
    else Store(Missing, Parsed(default), map p | p in home.files && !UnderCommands(p) :: home.files[p])
  }

  /** The home files outside the `commands` directory agree. */
  ghost predicate SameOutsideCommands(a: map<string, string>, b: map<string, string>) {
    forall p :: !UnderCommands(p) ==> SameAt(a, b, p)
  }

  /** A confirmed reset ends in the same state whatever the registry held
      before: only the files outside `commands` carry over. */
  lemma ResetForgetsRegistry(h1: Store, h2: Store, default: Manifest)
    requires SameOutsideCommands(h1.files, h2.files)
    ensures ResetCommand(h1, true, default) == ResetCommand(h2, true, default)
  {
    var f1 := ResetCommand(h1, true, default).files;
    var f2 := ResetCommand(h2, true, default).files;
    forall p
      ensures SameAt(f1, f2, p)
    {
      if !UnderCommands(p) {
        assert SameAt(h1.files, h2.files, p);
      }
    }
    SameEverywhere(f1, f2);
  }

  /** Resetting twice is resetting once. */
  lemma ResetIdempotent(home: Store, default: Manifest)
    ensures var once := ResetCommand(home, true, default);
            ResetCommand(once, true, default) == once
  {
    var once := ResetCommand(home, true, default);
    ResetForgetsRegistry(once, home, default);
  }

  /** After a confirmed reset no custom command is registered and the
      environment entries are as they were. */
  lemma ResetKeepsEnvironment(home: Store, default: Manifest)
    ensures var r := ResetCommand(home, true, default);
            HomeCommands(r) == [] && ReadEnv(r.files) == ReadEnv(home.files)
  {
    var r := ResetCommand(home, true, default);
    assert !UnderCommands(EnvPath);
    assert (EnvPath in r.files) == (EnvPath in home.files);
  }
}

/** utils/command.ts: reading a folder's entry document, the widest command
    key, sorting the commands by key, and the older `addCustomCommands`
    whose merge rule the current import replaced. */
module CommandUtil {
  import opened Wrappers
  import opened Strings
  import opened Records
  import opened Registry

  /** `getCustomCommandsFromFolder`: the folder's entry document, or nothing
      when `entry.json` is missing or empty. */
  function GetCustomCommandsFromFolder(folder: Store): (r: Result<Option<Entry>, Error>)
    ensures r == Success(None) <==> folder.entry.Missing? || folder.entry.Blank?
    ensures r.Failure? <==> folder.entry.Malformed?
    ensures folder.entry.Parsed? ==> r == Success(Some(folder.entry.value))
  {
    TryOpen(folder.entry, EntryPath)
  }

  /** `getLongestCommandLength`: `Math.max` of the key lengths, with `None`
      for the `-Infinity` that `Math.max()` gives on no arguments. */
  function LongestCommandLength(keys: seq<string>): (r: Option<nat>)
    ensures r.None? <==> |keys| == 0
    ensures r.Some? ==> forall i :: 0 <= i < |keys| ==> |keys[i]| <= r.value
    ensures r.Some? ==> exists i :: 0 <= i < |keys| && |keys[i]| == r.value
  {
    if |keys| == 0 then None
    else
      match LongestCommandLength(keys[1..])
      case None => Some(|keys[0]|)
      case Some(m) =>
        assert forall i :: 1 <= i < |keys| ==> keys[i] == keys[1..][i - 1];
        if |keys[0]| >= m then Some(|keys[0]|) else Some(m)
  }

  /** `reorderCommands`: the same commands, keys in ascending order. */
  function ReorderCommands(commands: Commands): (r: Commands)
    ensures Sorted(r)
    ensures forall k :: Find(r, k) == Find(commands, k)
    ensures |r| == |commands|
  {
    var r := Sort(commands);
    SamePairsSameFind(r, commands);
    r
  }

  /** Reordering twice is reordering once. */
  lemma ReorderIdempotent(commands: Commands)
    ensures ReorderCommands(ReorderCommands(commands)) == ReorderCommands(commands)
  {
    SortSorted(ReorderCommands(commands));
  }

  /** A sorted record is the only reordering of itself. */
  lemma ReorderSorted(commands: Commands)
    requires Sorted(commands)
    ensures ReorderCommands(commands) == commands
  {
    SortSorted(commands);
  }

  /** The manifest the older import starts from when the home has none. */
  const LegacyDefaultManifest: Manifest :=
    Manifest(map["name" := "cliff", "version" := "0.0.0"], None, None)

  /** The older staging loop as its author evidently meant it, walking the
      module's import list: every package name a selected module imports is
      staged with the source folder's version, whatever the home pins. As
      written, line 60 walks the lexer's whole result instead, and nothing is
      staged (see `LegacyAddCustomCommandsAsWritten`). */
  function LegacyStage(keys: seq<string>, specs: string -> seq<string>, source: map<string, string>,
                       staged: map<string, Option<string>>): (r: map<string, Option<string>>)
    ensures forall n :: n in r <==> n in staged || (!IsRelative(n) && Mentioned(keys, specs, n))
    ensures forall n :: n in r && n !in staged ==> r[n] == Lookup(source, n)
    ensures forall n :: n in r && n in staged && !(!IsRelative(n) && Mentioned(keys, specs, n)) ==> r[n] == staged[n]
    ensures forall n :: n in r && !IsRelative(n) && Mentioned(keys, specs, n) ==> r[n] == Lookup(source, n)
    decreases |keys|
  {
    if |keys| == 0 then staged
    else
      var next := LegacyStageModule(specs(keys[0]), source, staged);
      var r := LegacyStage(keys[1..], specs, source, next);
      forall n
        ensures Mentioned(keys, specs, n) <==> n in specs(keys[0]) || Mentioned(keys[1..], specs, n)
      {
        MentionedCons(keys, specs, n);
      }
      r
  }

  /** The inner loop of the older staging, over one module's imports. */
  function LegacyStageModule(names: seq<string>, source: map<string, string>,
                             staged: map<string, Option<string>>): (r: map<string, Option<string>>)
    ensures forall n :: n in r <==> n in staged || (!IsRelative(n) && n in names)
    ensures forall n :: n in r && !IsRelative(n) && n in names ==> r[n] == Lookup(source, n)
    ensures forall n :: n in r && !(!IsRelative(n) && n in names) ==> r[n] == staged[n]
  {
    if |names| == 0 then staged
    else
      var n := names[0];
      var next := if IsRelative(n) then staged else staged[n := Lookup(source, n)];
      assert forall m :: m in names <==> m == n || m in names[1..];
      LegacyStageModule(names[1..], source, next)
  }

  /** Lines 50-84 once the documents are read: the selected commands are
      assigned over the home's and sorted; `dependencies` become the source
      folder's overlaid with the staged names. */
  function LegacyWrite(selected: Commands, entry: Entry, manifest: Manifest, sourceDeps: map<string, string>,
                       staged: map<string, Option<string>>): (Entry, Manifest)
  {
    (Entry(ReorderCommands(PutAll(entry.commands, selected)), entry.dependenciesByCommand),
     manifest.(dependencies := Some(Overlay(sourceDeps, staged))))
  }

  /** The older `addCustomCommands` (lines 20-85) as written. The loop at line
      60 walks the lexer's result, a tuple of the import list, the export list
      and flags; none of these has an `a` property, so nothing is staged and
      the source folder's `dependencies` are never indexed. It fails only
      when a document cannot be read. */
  function LegacyAddCustomCommandsAsWritten(selected: Commands, source: Doc<Manifest>, home: Store)
    : (r: Result<(Entry, Manifest), Error>)
    ensures r.Failure? <==> !source.Parsed? || home.manifest.Malformed? || home.entry.Malformed?
    ensures r.Success? ==> Sorted(r.value.0.commands)
    ensures r.Success? ==> forall k ::
      Find(r.value.0.commands, k) == if Find(selected, k).Some? then Find(selected, k) else Find(HomeCommands(home), k)
    ensures r.Success? ==> r.value.1.dependencies == Some(source.value.dependencies.GetOr(map[]))
    ensures r.Success? && home.entry.Parsed? ==>
      r.value.0.dependenciesByCommand == home.entry.value.dependenciesByCommand
  {
    var src :- ReadJson(source, ManifestPath);
    var homeManifest :- TryOpen(home.manifest, ManifestPath);
    var entryDoc :- TryOpen(home.entry, EntryPath);
    var srcDeps := src.dependencies.GetOr(map[]);
    LookupExtensional(Overlay(srcDeps, map[]), srcDeps);
    Success(LegacyWrite(selected, entryDoc.GetOr(Entry([], None)), homeManifest.GetOr(LegacyDefaultManifest),
                        srcDeps, map[]))
  }

  /** The older `addCustomCommands` with line 60 walking the import list, as
      the reads of `item.a` and `item.n` expect. Line 65 then indexes the
      source folder's `dependencies`, which throws when that map is absent
      and some selected module imports a package. */
  function LegacyAddCustomCommands(selected: Commands, specs: string -> seq<string>,
                                   source: Doc<Manifest>, home: Store): (r: Result<(Entry, Manifest), Error>)
    ensures r.Failure? <==>
      || !source.Parsed? || home.manifest.Malformed? || home.entry.Malformed?
      || (source.value.dependencies.None? && ImportsPackage(Keys(selected), specs))
    ensures r.Success? ==> Sorted(r.value.0.commands)
    ensures r.Success? ==> forall k ::
      Find(r.value.0.commands, k) == if Find(selected, k).Some? then Find(selected, k) else Find(HomeCommands(home), k)
  {
    var src :- ReadJson(source, ManifestPath);
    var homeManifest :- TryOpen(home.manifest, ManifestPath);
    var entryDoc :- TryOpen(home.entry, EntryPath);
    var keys := Keys(selected);
    if src.dependencies.None? && ImportsPackage(keys, specs) then
      Failure(TypeError)
    else
      var srcDeps := src.dependencies.GetOr(map[]);
      Success(LegacyWrite(selected, entryDoc.GetOr(Entry([], None)), homeManifest.GetOr(LegacyDefaultManifest),
                          srcDeps, LegacyStage(keys, specs, srcDeps, map[])))
  }

  /** Under the older rule the home's previous dependencies are discarded: the
      written `dependencies` are exactly the source folder's, since a staged
      name carries the source's own version. */
  lemma LegacyDiscardsHomeDependencies(selected: Commands, specs: string -> seq<string>,
                                       source: Doc<Manifest>, home: Store)
    requires LegacyAddCustomCommands(selected, specs, source, home).Success?
    ensures source.Parsed?
    ensures LegacyAddCustomCommands(selected, specs, source, home).value.1.dependencies
            == Some(source.value.dependencies.GetOr(map[]))
  {
    var srcDeps := source.value.dependencies.GetOr(map[]);
    var staged := LegacyStage(Keys(selected), specs, srcDeps, map[]);
    LookupExtensional(Overlay(srcDeps, staged), srcDeps);
  }

  /** Walking the import list changes only when the older import fails:
      whenever the corrected version succeeds, it writes what the code as
      written writes. */
  lemma LegacyCorrectionAgrees(selected: Commands, specs: string -> seq<string>,
                               source: Doc<Manifest>, home: Store)
    requires LegacyAddCustomCommands(selected, specs, source, home).Success?
    ensures LegacyAddCustomCommands(selected, specs, source, home)
         == LegacyAddCustomCommandsAsWritten(selected, source, home)
  {
    LegacyDiscardsHomeDependencies(selected, specs, source, home);
  }

  /** Finding: as written, the older import stages nothing. A module that
      imports `lodash`, copied from a folder whose manifest has no
      `dependencies`, is imported and `dependencies` become `{}`; walking the
      import list would have indexed the missing map and thrown. */
  lemma LegacyAsWrittenStagesNothing()
    ensures var fmt: Commands := [("fmt", CommandEntry("Format files", [], "commands/fmt.mjs"))];
            var source := Parsed(Manifest(map[], None, None));
            var home := Store(Missing, Missing, map[]);
            var specs := (k: string) => ["lodash"];
            && LegacyAddCustomCommandsAsWritten(fmt, source, home).Success?
            && LegacyAddCustomCommandsAsWritten(fmt, source, home).value.1.dependencies == Some(map[])
            && LegacyAddCustomCommands(fmt, specs, source, home) == Failure(TypeError)
  {
    var fmt: Commands := [("fmt", CommandEntry("Format files", [], "commands/fmt.mjs"))];
    var specs := (k: string) => ["lodash"];
    var source := Parsed(Manifest(map[], None, None));
    var home := Store(Missing, Missing, map[]);
    assert Keys(fmt) == ["fmt"];
    assert ImportsPackage(Keys(fmt), specs) by {
      assert "lodash" in specs(Keys(fmt)[0]) && !IsRelative("lodash");
    }
    assert LegacyAddCustomCommands(fmt, specs, source, home).Failure?;
  }
}

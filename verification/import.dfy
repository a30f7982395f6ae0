/** commands/import.ts: which commands a folder offers, and how importing the
    selected ones updates the entry document and the manifest.

    Line 2 imports `parse` from `path`, not from `es-module-lexer`, so the
    staging loop as written throws for the first selected command
    (`AddCustomCommandsAsWritten`, `ImportCommandAsWritten`). The rest of the
    model reads line 118 as the lexer's `parse`, which the reads at lines
    121-125 expect. The lexer itself is outside the model: `specs(k)` is the
    sequence of import specifiers the loop visits for command `k`, and
    `ImportCommand` obtains it by applying `scan` to the copy of the module in
    the home. */
module ImportCmd {
  import opened Wrappers
  import opened Records
  import opened Registry
  import opened CommandUtil

  /** Lines 28-40: the commands of the source entry document whose key is
      neither a built-in key nor a key the home already has. */
  function Candidates(offered: Option<Entry>, custom: seq<string>): (r: Commands)
    ensures offered.None? ==> r == []
    ensures forall k ::
      Find(r, k) == if offered.Some? && k !in BuiltinKeys && k !in custom then Find(offered.value.commands, k) else None
  {
    if offered.None? then []
    else
      var existing := BuiltinKeys + custom;
      Filter(offered.value.commands, k => k !in existing)
  }

  /** Lines 25-42: read both entry documents and compute the candidates: the
      source folder's commands whose key is neither built in nor a command
      of the home. */
  function Offer(source: Store, home: Store): (r: Result<Commands, Error>)
    ensures r.Success? <==> !source.entry.Malformed? && !home.entry.Malformed?
    ensures r.Success? ==> forall k ::
      Find(r.value, k) ==
        if source.entry.Parsed? && k !in BuiltinKeys && Find(HomeCommands(home), k).None?
        then Find(source.entry.value.commands, k) else None
  {
    var offered :- GetCustomCommandsFromFolder(source);
    var existing :- GetCustomCommandsFromFolder(home);
    HomeKeys(home);
    Success(Candidates(offered, if existing.Some? then Keys(existing.value.commands) else []))
  }

  /** A key is one of the home's command keys exactly when the home has that command. */
  lemma HomeKeys(home: Store)
    ensures forall k :: k in Keys(HomeCommands(home)) <==> Find(HomeCommands(home), k).Some?
  {
    forall k
      ensures k in Keys(HomeCommands(home)) <==> Find(HomeCommands(home), k).Some?
    {
      FindSpec(HomeCommands(home), k);
    }
  }

  /** Lines 44-73: the candidates whose key was chosen at the prompt, in the
      order they were offered. */
  function Selected(offered: Commands, chosen: set<string>): (r: Commands)
    ensures forall k :: Find(r, k) == if k in chosen then Find(offered, k) else None
    ensures forall x :: x in r <==> x in offered && x.0 in chosen
  {
    Filter(offered, k => k in chosen)
  }

  /** The paths of the modules of some commands. */
  function ModulePaths(commands: seq<(string, CommandEntry)>): set<string> {
    set i | 0 <= i < |commands| :: commands[i].1.filePath
  }

  /** Lines 56-64: copy each selected command's module from the source folder
      into the home, under the same relative path. */
  function CopyModules(commands: seq<(string, CommandEntry)>, from: map<string, string>,
                       into: map<string, string>): (r: Result<map<string, string>, Error>)
    ensures r.Success? <==> ModulePaths(commands) <= from.Keys
    ensures r.Success? ==> forall p :: p in ModulePaths(commands) ==> p in r.value && r.value[p] == from[p]
    ensures r.Success? ==> forall p :: p !in ModulePaths(commands) ==> SameAt(r.value, into, p)
    decreases |commands|
  {
    if |commands| == 0 then Success(into)
    else
      var path := commands[0].1.filePath;
      assert ModulePaths(commands) == {path} + ModulePaths(commands[1..]) by {
        forall p | p in ModulePaths(commands) && p != path
          ensures p in ModulePaths(commands[1..])
        {
          var i :| 0 <= i < |commands| && commands[i].1.filePath == p;
          assert commands[1..][i - 1] == commands[i];
        }
        forall p | p in ModulePaths(commands[1..])
          ensures p in ModulePaths(commands)
        {
          var i :| 0 <= i < |commands[1..]| && commands[1..][i].1.filePath == p;
          assert commands[i + 1] == commands[1..][i];
        }
      }
      if path !in from then Failure(NotFound(path))
      else CopyModules(commands[1..], from, into[path := from[path]])
  }

  /** What the staging loop (lines 108-146) builds: the reference lists, and
      the dependencies to add with the source folder's version (`None` for
      `undefined`). */
  datatype Staging = Staging(refs: References, staged: map<string, Option<string>>)

  /** Lines 128-134 decide this: a package (not relative) whose version in the
      home manifest differs from the source folder's, where a missing entry
      counts as `undefined` on either side. */
  predicate Differs(name: string, home: map<string, string>, source: map<string, string>) {
    !IsRelative(name) && Lookup(home, name) != Lookup(source, name)
  }

  /** `c` copies of `key`. */
  function Repeat(key: string, c: nat): (s: seq<string>)
    ensures |s| == c && forall i :: 0 <= i < c ==> s[i] == key
  {
    seq(c, _ => key)
  }

  /** Lines 125-143, one import specifier of command `key`. */
  function StageSpecifier(key: string, name: string, home: map<string, string>,
                          source: map<string, string>, acc: Staging): Staging
  {
    if IsRelative(name) then acc
    else if Lookup(home, name) == Lookup(source, name) then acc
    else Staging(acc.refs[name := RefList(acc.refs, name) + [key]],
                 acc.staged[name := Lookup(source, name)])
  }

  /** Lines 120-145, the specifiers of one module in order: each package name
      whose version differs is staged, and `key` is appended to its reference
      list once per occurrence. */
  function StageModule(key: string, names: seq<string>, home: map<string, string>,
                       source: map<string, string>, acc: Staging): (r: Staging)
    ensures forall n :: Differs(n, home, source) && n in names ==>
      && n in r.refs && r.refs[n] == RefList(acc.refs, n) + Repeat(key, multiset(names)[n])
      && n in r.staged && r.staged[n] == Lookup(source, n)
    ensures forall n :: !(Differs(n, home, source) && n in names) ==>
      SameAt(r.refs, acc.refs, n) && SameAt(r.staged, acc.staged, n)
    decreases |names|
  {
    if |names| == 0 then acc
    else
      var next := StageSpecifier(key, names[0], home, source, acc);
      var r := StageModule(key, names[1..], home, source, next);
      assert names == [names[0]] + names[1..];
      forall n | Differs(n, home, source) && n in names
        ensures n in r.refs && r.refs[n] == RefList(acc.refs, n) + Repeat(key, multiset(names)[n])
      {
        RepeatStep(RefList(acc.refs, n), RefList(next.refs, n), key, names, n);
      }
      r
  }

  /** The step of `StageModule` for one staged name: appending `key` for the
      first specifier and then once per later occurrence appends it once per
      occurrence in all of them. */
  lemma RepeatStep(prior: seq<string>, mid: seq<string>, key: string, names: seq<string>, n: string)
    requires |names| > 0
    requires mid == if n == names[0] then prior + [key] else prior
    ensures mid + Repeat(key, multiset(names[1..])[n]) == prior + Repeat(key, multiset(names)[n])
  {
    assert names == [names[0]] + names[1..];
    var c := multiset(names[1..])[n];
    if n == names[0] {
      assert multiset(names)[n] == c + 1;
      assert Repeat(key, c + 1) == [key] + Repeat(key, c);
      assert prior + [key] + Repeat(key, c) == prior + ([key] + Repeat(key, c));
    } else {
      assert multiset(names)[n] == c;
    }
  }

  /** The keys of `keys` in order, each repeated once per import of `name` in
      its module: what the loop appends to `name`'s reference list. */
  function Mentions(keys: seq<string>, specs: string -> seq<string>, name: string): seq<string>
  {
    if |keys| == 0 then []
    else Repeat(keys[0], multiset(specs(keys[0]))[name]) + Mentions(keys[1..], specs, name)
  }

  lemma {:induction false} MentionsEmpty(keys: seq<string>, specs: string -> seq<string>, name: string)
    requires !Mentioned(keys, specs, name)
    ensures Mentions(keys, specs, name) == []
  {
    if |keys| > 0 {
      MentionedCons(keys, specs, name);
      MentionsEmpty(keys[1..], specs, name);
    }
  }

  /** The keys appended for `name` are exactly the keys whose module imports it. */
  lemma {:induction false} MentionsMembers(keys: seq<string>, specs: string -> seq<string>, name: string, k: string)
    ensures k in Mentions(keys, specs, name) <==> k in keys && name in specs(k)
  {
    if |keys| > 0 {
      MentionsMembers(keys[1..], specs, name, k);
      assert keys == [keys[0]] + keys[1..];
      var c := multiset(specs(keys[0]))[name];
      var head := Repeat(keys[0], c);
      assert c > 0 <==> name in specs(keys[0]);
      if c > 0 {
        assert head[0] == keys[0];
      }
      assert k in head ==> k == keys[0];
    }
  }

  /** The step of `StageCommands` for one staged name: what the first module
      appends, followed by what the others append, is what all of them append. */
  lemma StageCommandsStep(keys: seq<string>, specs: string -> seq<string>, n: string,
                          prior: seq<string>, afterFirst: seq<string>, inFirst: bool)
    requires |keys| > 0 && Mentioned(keys, specs, n)
    requires inFirst <==> n in specs(keys[0])
    requires inFirst ==> afterFirst == prior + Repeat(keys[0], multiset(specs(keys[0]))[n])
    requires !inFirst ==> afterFirst == prior
    requires Mentioned(keys, specs, n) <==> inFirst || Mentioned(keys[1..], specs, n)
    ensures (if Mentioned(keys[1..], specs, n) then afterFirst + Mentions(keys[1..], specs, n) else afterFirst)
            == prior + Mentions(keys, specs, n)
  {
    var head := Repeat(keys[0], multiset(specs(keys[0]))[n]);
    var rest := Mentions(keys[1..], specs, n);
    assert Mentions(keys, specs, n) == head + rest;
    if !inFirst {
      assert multiset(specs(keys[0]))[n] == 0;
      assert head + rest == rest;
    } else if Mentioned(keys[1..], specs, n) {
      assert prior + head + rest == prior + (head + rest);
    } else {
      MentionsEmpty(keys[1..], specs, n);
      assert head + rest == head;
    }
  }

  /** Lines 111-146, all selected commands in order. */
  function StageCommands(keys: seq<string>, specs: string -> seq<string>, home: map<string, string>,
                         source: map<string, string>, acc: Staging): (r: Staging)
    ensures forall n :: Differs(n, home, source) && Mentioned(keys, specs, n) ==>
      && n in r.refs && r.refs[n] == RefList(acc.refs, n) + Mentions(keys, specs, n)
      && n in r.staged && r.staged[n] == Lookup(source, n)
    ensures forall n :: !(Differs(n, home, source) && Mentioned(keys, specs, n)) ==>
      SameAt(r.refs, acc.refs, n) && SameAt(r.staged, acc.staged, n)
    decreases |keys|
  {
    if |keys| == 0 then acc
    else
      var next := StageModule(keys[0], specs(keys[0]), home, source, acc);
      var r := StageCommands(keys[1..], specs, home, source, next);
      forall n | Differs(n, home, source) && Mentioned(keys, specs, n)
        ensures n in r.refs && r.refs[n] == RefList(acc.refs, n) + Mentions(keys, specs, n)
      {
        MentionedCons(keys, specs, n);
        StageCommandsStep(keys, specs, n, RefList(acc.refs, n), RefList(next.refs, n), n in specs(keys[0]));
      }
      forall n | !(Differs(n, home, source) && Mentioned(keys, specs, n))
        ensures SameAt(r.refs, acc.refs, n) && SameAt(r.staged, acc.staged, n)
      {
        MentionedCons(keys, specs, n);
      }
      r
  }

  /** The three documents the reconciliation reads (lines 84-104). */
  datatype Loaded = Loaded(source: Manifest, home: Manifest, entry: Entry)

  /** Lines 84-104: the source manifest must exist and parse; a missing or
      empty home manifest is replaced by `default`, a missing or empty entry
      document by one with no commands and no references. Malformed text is
      an error. */
  function Load(source: Doc<Manifest>, home: Store, default: Manifest): (r: Result<Loaded, Error>)
    ensures r.Success? <==> source.Parsed? && !home.manifest.Malformed? && !home.entry.Malformed?
    ensures r.Success? ==> r.value.source == source.value
    ensures r.Success? && !home.manifest.Parsed? ==> r.value.home == default
    ensures r.Success? && home.manifest.Parsed? ==> r.value.home == home.manifest.value
    ensures r.Success? && !home.entry.Parsed? ==> r.value.entry == EmptyEntry
    ensures r.Success? && home.entry.Parsed? ==> r.value.entry == home.entry.value
  {
    var src :- ReadJson(source, ManifestPath);
    var homeManifest :- TryOpen(home.manifest, ManifestPath);
    var entry :- TryOpen(home.entry, EntryPath);
    Success(Loaded(src, homeManifest.GetOr(default), entry.GetOr(EmptyEntry)))
  }

  function HomeDeps(l: Loaded): map<string, string> {
    l.home.dependencies.GetOr(map[])
  }

  function SourceDeps(l: Loaded): map<string, string> {
    l.source.dependencies.GetOr(map[])
  }

  function PriorRefs(l: Loaded): References {
    l.entry.dependenciesByCommand.GetOr(map[])
  }

  /** Line 130 reads `dependencies[name]` of both manifests for the first
      package specifier; it throws when either manifest has no `dependencies`. */
  predicate Blocked(selected: Commands, specs: string -> seq<string>, l: Loaded) {
    ImportsPackage(Keys(selected), specs) && (l.home.dependencies.None? || l.source.dependencies.None?)
  }

  function Stage(selected: Commands, specs: string -> seq<string>, l: Loaded): Staging {
    StageCommands(Keys(selected), specs, HomeDeps(l), SourceDeps(l), Staging(PriorRefs(l), map[]))
  }

  /** What the import writes, and whether it starts `npm i`. */
  datatype Added = Added(entry: Entry, manifest: Manifest, staged: map<string, Option<string>>, install: bool)

  /** Lines 111-112, 148-153 and 164-168, once the staging is done. */
  function Finish(selected: Commands, l: Loaded, refs: Option<References>,
                  staged: map<string, Option<string>>): Added
  {
    Added(Entry(ReorderCommands(PutAll(l.entry.commands, selected)), refs),
          l.home.(dependencies := Some(Overlay(HomeDeps(l), staged))),
          staged,
          |staged| > 0)
  }

  /** `addCustomCommands` as written. `parse` at line 118 is `path.parse`
      (line 2); it returns an object that the `for ... of` at line 120 cannot
      iterate, so the first selected command throws a `TypeError` there,
      before either document is written or `npm i` runs. With nothing
      selected the loop body never runs: nothing is staged, and both
      documents are written back with `dependenciesByCommand` as it was. */
  function AddCustomCommandsAsWritten(selected: Commands, source: Doc<Manifest>, home: Store,
                                      default: Manifest): (r: Result<Added, Error>)
    ensures r.Failure? <==> Load(source, home, default).Failure? || |selected| > 0
    ensures Load(source, home, default).Success? && |selected| > 0 ==> r == Failure(TypeError)
    ensures r.Success? ==> r.value.staged == map[] && !r.value.install
    ensures r.Success? ==>
      var l := Load(source, home, default).value;
      && r.value.entry == Entry(ReorderCommands(l.entry.commands), l.entry.dependenciesByCommand)
      && r.value.manifest == l.home.(dependencies := Some(HomeDeps(l)))
  {
    var l :- Load(source, home, default);
    if |selected| > 0 then Failure(TypeError)
    else
      LookupExtensional(Overlay(HomeDeps(l), map[]), HomeDeps(l));
      Success(Finish(selected, l, l.entry.dependenciesByCommand, map[]))
  }

  /** `addCustomCommands` with line 118 corrected to the lexer's `parse` but
      line 109 as written: it assigns `dependenciesByCommand` to itself, so
      an entry document without that field makes line 139 throw as soon as
      a dependency is staged. */
  function AddWithSelfAssignedReferences(selected: Commands, specs: string -> seq<string>, source: Doc<Manifest>,
                                         home: Store, default: Manifest): (r: Result<Added, Error>)
    ensures r.Failure? <==>
      || Load(source, home, default).Failure?
      || Blocked(selected, specs, Load(source, home, default).value)
      || (&& Load(source, home, default).value.entry.dependenciesByCommand.None?
          && Stage(selected, specs, Load(source, home, default).value).staged != map[])
  {
    var l :- Load(source, home, default);
    if Blocked(selected, specs, l) then Failure(TypeError)
    else
      var st := Stage(selected, specs, l);
      if l.entry.dependenciesByCommand.None? then
        if |st.staged| > 0 then Failure(TypeError)
        else Success(Finish(selected, l, None, st.staged))
      else Success(Finish(selected, l, Some(st.refs), st.staged))
  }

  /** `addCustomCommands` as its author evidently meant it: line 118 calls
      the lexer's `parse`, and line 109 starts an entry document without
      `dependenciesByCommand` from an empty one. The rest of the model uses
      this version. */
  function AddCustomCommands(selected: Commands, specs: string -> seq<string>, source: Doc<Manifest>,
                             home: Store, default: Manifest): (r: Result<Added, Error>)
    ensures r.Failure? <==>
      Load(source, home, default).Failure? || Blocked(selected, specs, Load(source, home, default).value)
    ensures r.Success? ==> Sorted(r.value.entry.commands)
    ensures r.Success? ==> forall k ::
      Find(r.value.entry.commands, k) == if Find(selected, k).Some? then Find(selected, k) else Find(Load(source, home, default).value.entry.commands, k)
    ensures r.Success? ==> (r.value.install <==> r.value.staged != map[])
  {
    var l :- Load(source, home, default);
    if Blocked(selected, specs, l) then Failure(TypeError)
    else
      var st := Stage(selected, specs, l);
      Success(Finish(selected, l, Some(st.refs), st.staged))
  }

  /** Lines 128-143: a name is staged exactly when a selected module imports
      it and it is a package whose home version differs from the source's; it
      is staged with the source's version, and each selected key that imports
      it is appended to its reference list, once per import, in selection
      order. Every other reference list is left as it was. */
  lemma ImportStaging(selected: Commands, specs: string -> seq<string>, source: Doc<Manifest>,
                      home: Store, default: Manifest)
    requires AddCustomCommands(selected, specs, source, home, default).Success?
    ensures var a := AddCustomCommands(selected, specs, source, home, default).value;
            var l := Load(source, home, default).value;
            var keys := Keys(selected);
            && a.entry.dependenciesByCommand.Some?
            && (forall n :: n in a.staged <==> Differs(n, HomeDeps(l), SourceDeps(l)) && Mentioned(keys, specs, n))
            && (forall n :: n in a.staged ==> a.staged[n] == Lookup(SourceDeps(l), n))
            && (forall n :: n in a.staged ==>
                  && n in a.entry.dependenciesByCommand.value
                  && a.entry.dependenciesByCommand.value[n] == RefList(PriorRefs(l), n) + Mentions(keys, specs, n))
            && (forall n :: n !in a.staged ==> SameAt(a.entry.dependenciesByCommand.value, PriorRefs(l), n))
  {
  }

  /** Line 128: a relative specifier is never staged and never recorded. */
  lemma ImportSkipsRelative(selected: Commands, specs: string -> seq<string>, source: Doc<Manifest>,
                            home: Store, default: Manifest, name: string)
    requires AddCustomCommands(selected, specs, source, home, default).Success?
    requires IsRelative(name)
    ensures var a := AddCustomCommands(selected, specs, source, home, default).value;
            && name !in a.staged
            && SameAt(a.entry.dependenciesByCommand.value, PriorRefs(Load(source, home, default).value), name)
  {
    ImportStaging(selected, specs, source, home, default);
  }

  /** Lines 129-134: a name whose version is the same in both manifests
      (including absent from both) is neither staged nor recorded. */
  lemma ImportSkipsPinned(selected: Commands, specs: string -> seq<string>, source: Doc<Manifest>,
                          home: Store, default: Manifest, name: string)
    requires AddCustomCommands(selected, specs, source, home, default).Success?
    requires var l := Load(source, home, default).value;
             Lookup(HomeDeps(l), name) == Lookup(SourceDeps(l), name)
    ensures var a := AddCustomCommands(selected, specs, source, home, default).value;
            && name !in a.staged
            && SameAt(a.entry.dependenciesByCommand.value, PriorRefs(Load(source, home, default).value), name)
  {
    ImportStaging(selected, specs, source, home, default);
  }

  /** Lines 148-151: the written `dependencies` are the home's overridden by
      the staged names; every other dependency keeps its version, and the
      rest of the manifest is untouched. */
  lemma ImportMergesDependencies(selected: Commands, specs: string -> seq<string>, source: Doc<Manifest>,
                                 home: Store, default: Manifest)
    requires AddCustomCommands(selected, specs, source, home, default).Success?
    ensures var a := AddCustomCommands(selected, specs, source, home, default).value;
            var l := Load(source, home, default).value;
            && a.manifest.dependencies.Some?
            && (forall n :: Lookup(a.manifest.dependencies.value, n) ==
                  if n in a.staged then a.staged[n] else Lookup(HomeDeps(l), n))
            && a.manifest.fields == l.home.fields
            && a.manifest.devDependencies == l.home.devDependencies
  {
  }

  /** Lines 164-168: `npm i` runs exactly when some selected module imports a
      package whose home version differs from the source's. */
  lemma ImportInstallsIffStaged(selected: Commands, specs: string -> seq<string>, source: Doc<Manifest>,
                                home: Store, default: Manifest)
    requires AddCustomCommands(selected, specs, source, home, default).Success?
    ensures var a := AddCustomCommands(selected, specs, source, home, default).value;
            var l := Load(source, home, default).value;
            a.install <==> exists n :: Differs(n, HomeDeps(l), SourceDeps(l)) && Mentioned(Keys(selected), specs, n)
  {
    var a := AddCustomCommands(selected, specs, source, home, default).value;
    var l := Load(source, home, default).value;
    ImportStaging(selected, specs, source, home, default);
    if exists n :: Differs(n, HomeDeps(l), SourceDeps(l)) && Mentioned(Keys(selected), specs, n) {
      var n :| Differs(n, HomeDeps(l), SourceDeps(l)) && Mentioned(Keys(selected), specs, n);
      assert n in a.staged;
    }
  }

  /** The home after the documents an import wrote. */
  function Written(home: Store, a: Added): Store {
    home.(entry := Parsed(a.entry), manifest := Parsed(a.manifest))
  }

  /** Staging again against the merged home dependencies stages nothing:
      every package a selected module imports now has the source's version. */
  lemma RestageNothing(selected: Commands, specs: string -> seq<string>, l: Loaded, entry: Entry)
    requires !Blocked(selected, specs, l)
    ensures var h2 := Overlay(HomeDeps(l), Stage(selected, specs, l).staged);
            var l2 := Loaded(l.source, l.home.(dependencies := Some(h2)), entry);
            Stage(selected, specs, l2) == Staging(PriorRefs(l2), map[])
  {
    var keys := Keys(selected);
    var st := Stage(selected, specs, l);
    var h2 := Overlay(HomeDeps(l), st.staged);
    var l2 := Loaded(l.source, l.home.(dependencies := Some(h2)), entry);
    forall n | !IsRelative(n) && Mentioned(keys, specs, n)
      ensures Lookup(h2, n) == Lookup(SourceDeps(l), n)
    {
    }
    StageSynced(keys, specs, h2, SourceDeps(l2), Staging(PriorRefs(l2), map[]));
  }

  /** Reconciling the same commands again against what was written stages
      nothing, starts no install and leaves the manifest as it is. */
  lemma {:induction false} ReaddStagesNothing(selected: Commands, specs: string -> seq<string>, source: Doc<Manifest>,
                                              home: Store, default: Manifest)
    requires AddCustomCommands(selected, specs, source, home, default).Success?
    ensures var a := AddCustomCommands(selected, specs, source, home, default).value;
            var again := AddCustomCommands(selected, specs, source, Written(home, a), default);
            && again.Success?
            && again.value.staged == map[]
            && !again.value.install
            && again.value.manifest == a.manifest
  {
    var a := AddCustomCommands(selected, specs, source, home, default).value;
    var l := Load(source, home, default).value;
    var st := Stage(selected, specs, l);
    var h2 := Overlay(HomeDeps(l), st.staged);
    assert a == Finish(selected, l, Some(st.refs), st.staged);
    var l2 := Loaded(l.source, a.manifest, a.entry);
    assert Load(source, Written(home, a), default) == Success(l2);
    RestageNothing(selected, specs, l, a.entry);
    LookupExtensional(Overlay(h2, map[]), h2);
    assert AddCustomCommands(selected, specs, source, Written(home, a), default)
        == Success(Finish(selected, l2, Some(PriorRefs(l2)), map[]));
  }

  /** When every package the modules import has the same version on both
      sides, the staging loop stages nothing. */
  lemma StageSynced(keys: seq<string>, specs: string -> seq<string>, home: map<string, string>,
                    source: map<string, string>, acc: Staging)
    requires forall n :: !IsRelative(n) && Mentioned(keys, specs, n) ==> Lookup(home, n) == Lookup(source, n)
    ensures StageCommands(keys, specs, home, source, acc) == acc
  {
    var r := StageCommands(keys, specs, home, source, acc);
    forall n
      ensures SameAt(r.refs, acc.refs, n) && SameAt(r.staged, acc.staged, n)
    {
      assert !Differs(n, home, source) || !Mentioned(keys, specs, n);
    }
    SameEverywhere(r.refs, acc.refs);
    SameEverywhere(r.staged, acc.staged);
  }

  /** Finding: once line 118 is corrected, an entry document without
      `dependenciesByCommand` (the shape the older writer produced) still
      makes the import throw, at line 139. */
  lemma SelfAssignedRejectsEntryWithoutReferences()
    ensures var lint: Commands := [("lint", CommandEntry("Lint files", [], "commands/lint.mjs"))];
            var source := Parsed(Manifest(map[], Some(map["eslint" := "9"]), None));
            var home := Store(Parsed(Entry([], None)), Parsed(Manifest(map[], Some(map[]), None)), map[]);
            var specs := (k: string) => ["eslint"];
            && AddWithSelfAssignedReferences(lint, specs, source, home, home.manifest.value) == Failure(TypeError)
            && AddCustomCommands(lint, specs, source, home, home.manifest.value).Success?
  {
    var lint: Commands := [("lint", CommandEntry("Lint files", [], "commands/lint.mjs"))];
    var specs := (k: string) => ["eslint"];
    var source := Parsed(Manifest(map[], Some(map["eslint" := "9"]), None));
    var home := Store(Parsed(Entry([], None)), Parsed(Manifest(map[], Some(map[]), None)), map[]);
    var l := Loaded(source.value, home.manifest.value, Entry([], None));
    assert Load(source, home, home.manifest.value) == Success(l);
    assert Keys(lint) == ["lint"];
    assert Mentioned(Keys(lint), specs, "eslint") by {
      assert "eslint" in specs(Keys(lint)[0]);
    }
    assert Differs("eslint", HomeDeps(l), SourceDeps(l));
    assert "eslint" in Stage(lint, specs, l).staged;
    assert !Blocked(lint, specs, l);
  }

  /** The corrected import treats an entry document without
      `dependenciesByCommand` exactly like one whose references are empty. */
  lemma AddAcceptsEntryWithoutReferences(selected: Commands, specs: string -> seq<string>, source: Doc<Manifest>,
                                         store: Store, commands: Commands, default: Manifest)
    ensures AddCustomCommands(selected, specs, source, store.(entry := Parsed(Entry(commands, None))), default)
         == AddCustomCommands(selected, specs, source, store.(entry := Parsed(Entry(commands, Some(map[])))), default)
  {
  }

  /** What a completed import leaves: the home, and whether `npm i` runs. */
  datatype Imported = Imported(home: Store, install: bool)

  /** Lines 21-77, run in sequence: offer the candidates, keep the chosen
      ones, copy their modules into the home, then reconcile. A chosen
      candidate's descriptor and module arrive in the home; every other
      command and file stays as it was. */
  function ImportCommand(source: Store, home: Store, chosen: set<string>, scan: string -> seq<string>,
                         default: Manifest): (r: Result<Imported, Error>)
    ensures r.Success? ==> source.manifest.Parsed? && Offer(source, home).Success?
    ensures r.Success? <==>
      && Offer(source, home).Success?
      && var selected := Selected(Offer(source, home).value, chosen);
      && ModulePaths(selected) <= source.files.Keys
      && Load(source.manifest, home, default).Success?
      && !Blocked(selected, ModuleImports(selected, source.files, scan), Load(source.manifest, home, default).value)
    ensures r.Success? ==> r.value.home.entry.Parsed? && Sorted(r.value.home.entry.value.commands)
    ensures r.Success? ==> forall k ::
      Find(r.value.home.entry.value.commands, k) ==
        if k in chosen && Find(Offer(source, home).value, k).Some? then Find(Offer(source, home).value, k)
        else Find(HomeCommands(home), k)
    ensures r.Success? ==> forall k :: k in chosen && Find(Offer(source, home).value, k).Some? ==>
      var p := Find(Offer(source, home).value, k).value.filePath;
      p in source.files && p in r.value.home.files && r.value.home.files[p] == source.files[p]
    ensures r.Success? ==> forall p :: p !in ModulePaths(Selected(Offer(source, home).value, chosen)) ==>
      SameAt(r.value.home.files, home.files, p)
  {
    var offered :- Offer(source, home);
    var selected := Selected(offered, chosen);
    var files :- CopyModules(selected, source.files, home.files);
    var specs := ModuleImports(selected, files, scan);
    ScanCopied(selected, source.files, files, scan);
    var added :- AddCustomCommands(selected, specs, source.manifest, home.(files := files), default);
    ChosenPaths(offered, chosen);
    Success(Imported(Store(Parsed(added.entry), Parsed(added.manifest), files), added.install))
  }

  /** Nothing is selected when no chosen key is offered. */
  lemma NothingSelected(offered: Commands, chosen: set<string>)
    requires forall k :: k in chosen ==> Find(offered, k).None?
    ensures Selected(offered, chosen) == []
  {
    var selected := Selected(offered, chosen);
    if |selected| > 0 {
      var x := selected[0];
      assert x in selected;
      FindPair(offered, x.0, x.1);
    }
  }

  /** The copied modules scan as the source ones do. */
  lemma ScanCopied(selected: Commands, from: map<string, string>, into: map<string, string>,
                   scan: string -> seq<string>)
    requires forall p :: p in ModulePaths(selected) ==> p in from && p in into && into[p] == from[p]
    ensures ImportsPackage(Keys(selected), ModuleImports(selected, into, scan)) <==>
            ImportsPackage(Keys(selected), ModuleImports(selected, from, scan))
  {
    forall i | 0 <= i < |selected|
      ensures ModuleImports(selected, into, scan)(Keys(selected)[i]) == ModuleImports(selected, from, scan)(Keys(selected)[i])
    {
      FindSpec(selected, selected[i].0);
      assert selected[i].1.filePath in ModulePaths(selected);
    }
  }

  /** The module of a chosen candidate is among the modules copied. */
  lemma ChosenPaths(offered: Commands, chosen: set<string>)
    ensures forall k :: k in chosen && Find(offered, k).Some? ==>
      Find(offered, k).value.filePath in ModulePaths(Selected(offered, chosen))
  {
    var selected := Selected(offered, chosen);
    forall k | k in chosen && Find(offered, k).Some?
      ensures Find(offered, k).value.filePath in ModulePaths(selected)
    {
      var c := Find(offered, k).value;
      FindPair(selected, k, c);
      var i :| 0 <= i < |selected| && selected[i] == (k, c);
    }
  }

  /** `npm i` runs after an import exactly when some chosen module, as copied
      into the home, imports a package whose home version differs from the
      source folder's. */
  lemma ImportCommandInstalls(source: Store, home: Store, chosen: set<string>, scan: string -> seq<string>,
                              default: Manifest)
    requires ImportCommand(source, home, chosen, scan, default).Success?
    ensures var r := ImportCommand(source, home, chosen, scan, default).value;
            var selected := Selected(Offer(source, home).value, chosen);
            var l := Load(source.manifest, home, default).value;
            r.install <==> exists n :: Differs(n, HomeDeps(l), SourceDeps(l))
                                     && Mentioned(Keys(selected), ModuleImports(selected, r.home.files, scan), n)
  {
    var offered := Offer(source, home).value;
    var selected := Selected(offered, chosen);
    var files := CopyModules(selected, source.files, home.files).value;
    var specs := ModuleImports(selected, files, scan);
    assert Load(source.manifest, home.(files := files), default) == Load(source.manifest, home, default);
    ImportInstallsIffStaged(selected, specs, source.manifest, home.(files := files), default);
  }

  /** How the import as written stops: what it throws, and the home's module
      files at that point. */
  datatype Aborted = Aborted(error: Error, files: map<string, string>)

  /** `importCommand` as written, with `AddCustomCommandsAsWritten`. The
      copies of lines 56-64 are not undone when the reconciliation throws,
      so an import of at least one command fails with the chosen modules
      copied into the home and neither document written. */
  function ImportCommandAsWritten(source: Store, home: Store, chosen: set<string>, default: Manifest)
    : (r: Result<Imported, Aborted>)
    ensures r.Success? <==>
      && Offer(source, home).Success?
      && Selected(Offer(source, home).value, chosen) == []
      && Load(source.manifest, home, default).Success?
    ensures r.Success? ==>
      && !r.value.install
      && r.value.home.files == home.files
      && r.value.home.entry.Parsed?
      && forall k :: Find(r.value.home.entry.value.commands, k) == Find(HomeCommands(home), k)
  {
    match Offer(source, home)
    case Failure(e) => Failure(Aborted(e, home.files))
    case Success(offered) =>
      var selected := Selected(offered, chosen);
      match CopyModules(selected, source.files, home.files)
      case Failure(e) => Failure(Aborted(e, home.files))
      case Success(files) =>
        assert Load(source.manifest, home.(files := files), default) == Load(source.manifest, home, default);
        match AddCustomCommandsAsWritten(selected, source.manifest, home.(files := files), default)
        case Failure(e) => Failure(Aborted(e, files))
        case Success(added) =>
          Success(Imported(Store(Parsed(added.entry), Parsed(added.manifest), files), added.install))
  }

  /** Finding: as written, choosing any offered command makes the import
      throw a `TypeError` once the chosen modules are copied, whatever the
      modules import. */
  lemma AsWrittenImportThrows(source: Store, home: Store, chosen: set<string>, default: Manifest, k: string)
    requires Offer(source, home).Success?
    requires k in chosen && Find(Offer(source, home).value, k).Some?
    requires ModulePaths(Selected(Offer(source, home).value, chosen)) <= source.files.Keys
    requires Load(source.manifest, home, default).Success?
    ensures var r := ImportCommandAsWritten(source, home, chosen, default);
            && r.Failure?
            && r.error.error == TypeError
            && forall p :: p in ModulePaths(Selected(Offer(source, home).value, chosen)) ==>
                 p in r.error.files && r.error.files[p] == source.files[p]
  {
    var selected := Selected(Offer(source, home).value, chosen);
    assert Find(selected, k).Some?;
    assert |selected| > 0;
  }

  /** With nothing selected the import as written and the corrected import
      agree, except that the corrected one writes an empty
      `dependenciesByCommand` where the entry document had none. */
  lemma AsWrittenAgreesWithoutSelection(specs: string -> seq<string>, source: Doc<Manifest>, home: Store,
                                        default: Manifest)
    ensures var a := AddCustomCommandsAsWritten([], source, home, default);
            var b := AddCustomCommands([], specs, source, home, default);
            && (a.Success? <==> b.Success?)
            && (a.Success? && Load(source, home, default).value.entry.dependenciesByCommand.Some? ==> a == b)
  {
    var none: Commands := [];
    assert Keys(none) == [];
    assert !ImportsPackage(Keys(none), specs);
    if AddCustomCommands([], specs, source, home, default).Success? {
      AddNothing(specs, source, home, default);
    }
  }

  /** The specifiers of each selected command, scanned from its copy in the home. */
  function ModuleImports(selected: Commands, files: map<string, string>, scan: string -> seq<string>): string -> seq<string>
  {
    k => match Find(selected, k)
         case Some(c) => if c.filePath in files then scan(files[c.filePath]) else []
         case None => []
  }

  /** Reconciling no commands leaves the entry document and the manifest's
      dependencies as they were (up to the key order of the commands and the
      defaults for missing documents) and installs nothing. */
  lemma AddNothing(specs: string -> seq<string>, source: Doc<Manifest>, home: Store, default: Manifest)
    requires AddCustomCommands([], specs, source, home, default).Success?
    ensures var a := AddCustomCommands([], specs, source, home, default).value;
            var l := Load(source, home, default).value;
            && a.staged == map[]
            && !a.install
            && a.entry == Entry(ReorderCommands(l.entry.commands), Some(PriorRefs(l)))
            && a.manifest == l.home.(dependencies := Some(HomeDeps(l)))
  {
    var l := Load(source, home, default).value;
    var none: Commands := [];
    assert Keys(none) == [];
    LookupExtensional(Overlay(HomeDeps(l), map[]), HomeDeps(l));
  }

  /** With no entry document in the source folder nothing is offered, so the
      import adds no command and installs nothing. */
  lemma ImportWithoutSourceEntry(source: Store, home: Store, chosen: set<string>, scan: string -> seq<string>,
                                 default: Manifest)
    requires source.entry.Missing? || source.entry.Blank?
    requires ImportCommand(source, home, chosen, scan, default).Success?
    ensures var r := ImportCommand(source, home, chosen, scan, default).value;
            && !r.install
            && r.home.files == home.files
            && forall k :: Find(r.home.entry.value.commands, k) == Find(HomeCommands(home), k)
  {
    var offered := Offer(source, home).value;
    assert offered == [];
    var selected := Selected(offered, chosen);
    assert selected == [];
    AddNothing(ModuleImports(selected, home.files, scan), source.manifest, home.(files := home.files), default);
  }

  /** Importing again from the same folder with the same choice changes
      nothing: every chosen candidate is now a command of the home, so none is
      offered, nothing is copied, staged or installed, and both documents are
      written back as they are. */
  lemma {:induction false} ReimportIsIdempotent(source: Store, home: Store, chosen: set<string>,
                                                scan: string -> seq<string>, default: Manifest)
    requires ImportCommand(source, home, chosen, scan, default).Success?
    ensures var h := ImportCommand(source, home, chosen, scan, default).value.home;
            ImportCommand(source, h, chosen, scan, default) == Success(Imported(h, false))
  {
    var offered := Offer(source, home).value;
    var selected := Selected(offered, chosen);
    var files := CopyModules(selected, source.files, home.files).value;
    var specs := ModuleImports(selected, files, scan);
    var added := AddCustomCommands(selected, specs, source.manifest, home.(files := files), default).value;
    var h := Store(Parsed(added.entry), Parsed(added.manifest), files);
    assert ImportCommand(source, home, chosen, scan, default).value.home == h;
    ImportStaging(selected, specs, source.manifest, home.(files := files), default);
    ImportMergesDependencies(selected, specs, source.manifest, home.(files := files), default);
    var l := Load(source.manifest, home.(files := files), default).value;
    var c := added.entry.commands;

    var offered2 := Offer(source, h).value;
    var selected2 := Selected(offered2, chosen);
    forall k | k in chosen
      ensures Find(offered2, k).None?
    {
      if source.entry.Parsed? && k !in BuiltinKeys && Find(source.entry.value.commands, k).Some? {
        FindSpec(c, k);
        FindSpec(l.entry.commands, k);
        assert l.entry.commands == HomeCommands(home);
        if k !in Keys(l.entry.commands) {
          assert Find(offered, k).Some?;
          assert Find(selected, k).Some?;
        }
        assert HomeCommands(h) == c;
      }
    }
    NothingSelected(offered2, chosen);
    assert h.(files := files) == h;
    AddNothing(ModuleImports(selected2, files, scan), source.manifest, h, default);
    ReorderSorted(c);
  }
}

/** commands/remove.ts: deleting selected commands from the home, dropping
    their keys from the reference lists, and pruning the manifest entries
    that no remaining reference list holds. */
module RemoveCmd {
  import opened Wrappers
  import opened Records
  import opened Registry

  /** Lines 66-73: `findIndex` then `splice(idx, 1)`, the first occurrence of
      `key` taken out of a reference list. */
  function RemoveFirst(xs: seq<string>, key: string): (r: seq<string>)
    ensures multiset(r) == multiset(xs) - multiset{key}
    ensures key !in xs ==> r == xs
  {
    if |xs| == 0 then []
    else if xs[0] == key then
      assert xs == [xs[0]] + xs[1..];
      xs[1..]
    else
      assert xs == [xs[0]] + xs[1..];
      [xs[0]] + RemoveFirst(xs[1..], key)
  }

  /** The list without the first occurrence is the splice at that position:
      the other entries keep their order. */
  lemma {:induction false} RemoveFirstSplices(xs: seq<string>, key: string, i: nat)
    requires i < |xs| && xs[i] == key && key !in xs[..i]
    ensures RemoveFirst(xs, key) == xs[..i] + xs[i + 1..]
  {
    if i > 0 {
      var tail := xs[1..];
      SliceAfterHead(xs, i);
      assert xs[0] != key && key !in tail[..i - 1];
      RemoveFirstSplices(tail, key, i - 1);
    }
  }

  /** Slicing `xs` at `i` is slicing its tail at `i - 1`. */
  lemma SliceAfterHead(xs: seq<string>, i: nat)
    requires 0 < i < |xs|
    ensures xs[..i] == [xs[0]] + xs[1..][..i - 1] && xs[1..][i..] == xs[i + 1..]
  {
  }

  /** The state the loop of lines 57-85 carries: the entry document, the
      manifest, and the module paths collected for deletion. */
  datatype Pruning = Pruning(entry: Entry, manifest: Manifest, removed: seq<string>)

  /** The dependencies whose reference list is empty. */
  function Unreferenced(refs: References): set<string> {
    set d | d in refs && |refs[d]| == 0
  }

  /** Lines 65-74: `key` taken out of every reference list once; emptied
      lists stay. */
  function Unlist(refs: References, key: string): (r: References)
    ensures r.Keys == refs.Keys
  {
    map d | d in refs :: RemoveFirst(refs[d], key)
  }

  /** Lines 76-82: `delete` from a dependency map that may be absent. */
  function Prune(deps: Option<map<string, string>>, gone: set<string>): Option<map<string, string>> {
    if deps.Some? then Some(deps.value - gone) else None
  }

  /** Lines 58-84, one selected key. A key missing from `commands` makes line
      59 read `filePath` of `undefined`. An entry document without
      `dependenciesByCommand` makes the inner `for ... in` loop run zero times. */
  function RemoveOne(key: string, st: Pruning): (r: Result<Pruning, Error>)
    ensures r.Failure? <==> Find(st.entry.commands, key).None?
  {
    match Find(st.entry.commands, key)
    case None => Failure(TypeError)
    case Some(c) =>
      var commands := Filter(st.entry.commands, k => k != key);
      var removed := st.removed + [c.filePath];
      match st.entry.dependenciesByCommand
      case None => Success(Pruning(Entry(commands, None), st.manifest, removed))
      case Some(refs) =>
        var rest := Unlist(refs, key);
        var gone := Unreferenced(rest);
        Success(Pruning(Entry(commands, Some(rest)),
                        st.manifest.(dependencies := Prune(st.manifest.dependencies, gone),
                                     devDependencies := Prune(st.manifest.devDependencies, gone)),
                        removed))
  }

  /** Lines 57-85: the selected keys in order. */
  function RemoveAll(keys: seq<string>, st: Pruning): Result<Pruning, Error>
    decreases |keys|
  {
    if |keys| == 0 then Success(st)
    else
      var next :- RemoveOne(keys[0], st);
      RemoveAll(keys[1..], next)
  }

  /** The module paths of `keys` in `commands`, in the order of `keys`. */
  function ModulesOf(keys: seq<string>, commands: Commands): (paths: seq<string>)
    requires forall i :: 0 <= i < |keys| ==> Find(commands, keys[i]).Some?
    ensures |paths| == |keys| && forall i :: 0 <= i < |keys| ==> paths[i] == Find(commands, keys[i]).value.filePath
  {
    seq(|keys|, i requires 0 <= i < |keys| => Find(commands, keys[i]).value.filePath)
  }

  lemma ModulesOfAgree(keys: seq<string>, a: Commands, b: Commands)
    requires forall i :: 0 <= i < |keys| ==> Find(a, keys[i]).Some? && Find(a, keys[i]) == Find(b, keys[i])
    ensures ModulesOf(keys, a) == ModulesOf(keys, b)
  {
  }

  lemma ModulesOfCons(keys: seq<string>, commands: Commands)
    requires |keys| > 0
    requires forall i :: 0 <= i < |keys| ==> Find(commands, keys[i]).Some?
    ensures ModulesOf(keys, commands) == [Find(commands, keys[0]).value.filePath] + ModulesOf(keys[1..], commands)
  {
  }

  /** Whether the loop deletes `name` from the manifest: some key is removed
      and the removed keys account for every entry of `name`'s reference list. */
  predicate Pruned(refs: Option<References>, keys: seq<string>, name: string) {
    && refs.Some?
    && |keys| > 0
    && name in refs.value
    && multiset(refs.value[name]) <= multiset(keys)
  }

  /** `deps` with the names in `Pruned` deleted. */
  ghost predicate PrunedFrom(before: Option<map<string, string>>, after: Option<map<string, string>>,
                       refs: Option<References>, keys: seq<string>)
  {
    && (after.Some? <==> before.Some?)
    && (before.Some? ==> forall n ::
          Lookup(after.value, n) == if Pruned(refs, keys, n) then None else Lookup(before.value, n))
  }

  /** A removal step and the steps after it delete a name exactly when the
      keys removed together account for its whole reference list. */
  lemma PrunedStep(list: seq<string>, key: string, rest: seq<string>)
    ensures (|RemoveFirst(list, key)| == 0 || (|rest| > 0 && multiset(RemoveFirst(list, key)) <= multiset(rest)))
        <==> multiset(list) <= multiset([key] + rest)
  {
    var after := RemoveFirst(list, key);
    assert multiset([key] + rest) == multiset{key} + multiset(rest);
    if multiset(list) <= multiset([key] + rest) && |after| > 0 {
      assert multiset(after) <= multiset(rest) by {
        forall x
          ensures multiset(after)[x] <= multiset(rest)[x]
        {
        }
      }
      assert |rest| > 0 by {
        var x :| x in multiset(after);
      }
    }
    if |after| == 0 {
      assert multiset(after) == multiset{};
      assert multiset(list) <= multiset{key};
    }
  }

  /** One step of the loop, as far as the commands and the collected paths go. */
  lemma RemoveOneCommands(key: string, st: Pruning)
    requires RemoveOne(key, st).Success?
    ensures var next := RemoveOne(key, st).value;
      && Find(st.entry.commands, key).Some?
      && (forall k :: Find(next.entry.commands, k) == if k == key then None else Find(st.entry.commands, k))
      && (Sorted(st.entry.commands) ==> Sorted(next.entry.commands))
      && next.removed == st.removed + [Find(st.entry.commands, key).value.filePath]
  {
  }

  /** One step of the loop, as far as the reference lists go. */
  lemma RemoveOneReferences(key: string, st: Pruning)
    requires RemoveOne(key, st).Success?
    ensures var next := RemoveOne(key, st).value;
      && (next.entry.dependenciesByCommand.Some? <==> st.entry.dependenciesByCommand.Some?)
      && (st.entry.dependenciesByCommand.Some? ==>
            var before, mid := st.entry.dependenciesByCommand.value, next.entry.dependenciesByCommand.value;
            && mid.Keys == before.Keys
            && forall d :: d in before ==> multiset(mid[d]) == multiset(before[d]) - multiset{key})
  {
  }

  /** One step of the loop, stated against the state before it, in the
      terms the proofs about the whole loop use: `RemoveOneCommands` and
      `RemoveOneReferences` together with the pruning of the manifest. */
  lemma RemoveOneSpec(key: string, st: Pruning)
    requires RemoveOne(key, st).Success?
    ensures var next := RemoveOne(key, st).value;
      && Find(st.entry.commands, key).Some?
      && (forall k :: Find(next.entry.commands, k) == if k == key then None else Find(st.entry.commands, k))
      && (Sorted(st.entry.commands) ==> Sorted(next.entry.commands))
      && next.removed == st.removed + [Find(st.entry.commands, key).value.filePath]
      && (st.entry.dependenciesByCommand.None? ==>
            next.entry.dependenciesByCommand.None? && next.manifest == st.manifest)
      && (st.entry.dependenciesByCommand.Some? ==>
            var refs := Unlist(st.entry.dependenciesByCommand.value, key);
            && next.entry.dependenciesByCommand == Some(refs)
            && next.manifest.fields == st.manifest.fields
            && next.manifest.dependencies == Prune(st.manifest.dependencies, Unreferenced(refs))
            && next.manifest.devDependencies == Prune(st.manifest.devDependencies, Unreferenced(refs)))
  {
  }

  /** The loop removes exactly the selected keys from `commands` and keeps
      them sorted. */
  lemma {:induction false} RemoveAllCommands(keys: seq<string>, st: Pruning)
    requires RemoveAll(keys, st).Success?
    ensures var r := RemoveAll(keys, st).value;
      && (forall k :: Find(r.entry.commands, k) == if k in keys then None else Find(st.entry.commands, k))
      && (Sorted(st.entry.commands) ==> Sorted(r.entry.commands))
    decreases |keys|
  {
    if |keys| > 0 {
      var next := RemoveOne(keys[0], st).value;
      RemoveOneSpec(keys[0], st);
      RemoveAllCommands(keys[1..], next);
      assert forall k :: k in keys <==> k == keys[0] || k in keys[1..];
    }
  }

  /** Every selected key must be present, and the loop collects the removed
      modules' paths in the order of the keys. */
  lemma {:induction false} RemoveAllModules(keys: seq<string>, st: Pruning)
    requires RemoveAll(keys, st).Success?
    ensures forall i :: 0 <= i < |keys| ==> Find(st.entry.commands, keys[i]).Some?
    ensures RemoveAll(keys, st).value.removed == st.removed + ModulesOf(keys, st.entry.commands)
    decreases |keys|
  {
    if |keys| > 0 {
      var key, rest := keys[0], keys[1..];
      var next := RemoveOne(key, st).value;
      var before, after := st.entry.commands, next.entry.commands;
      assert RemoveAll(keys, st) == RemoveAll(rest, next);
      RemoveAllModules(rest, next);
      assert keys == [key] + rest;
      RemoveOneModules(key, rest, keys, st);
    }
  }

  /** One step of the loop appends the path of `key`, so the paths collected
      for `rest` afterwards are those of `[key] + rest` before. */
  lemma RemoveOneModules(key: string, rest: seq<string>, keys: seq<string>, st: Pruning)
    requires keys == [key] + rest
    requires RemoveOne(key, st).Success?
    requires forall i :: 0 <= i < |rest| ==> Find(RemoveOne(key, st).value.entry.commands, rest[i]).Some?
    ensures forall i :: 0 <= i < |keys| ==> Find(st.entry.commands, keys[i]).Some?
    ensures var next := RemoveOne(key, st).value;
      next.removed + ModulesOf(rest, next.entry.commands) == st.removed + ModulesOf(keys, st.entry.commands)
  {
    var next := RemoveOne(key, st).value;
    var before, after := st.entry.commands, next.entry.commands;
    assert && Find(before, key).Some?
           && (forall k :: Find(after, k) == if k == key then None else Find(before, k))
           && next.removed == st.removed + [Find(before, key).value.filePath] by {
      RemoveOneCommands(key, st);
    }
    ModulesJoin(st.removed, next.removed, key, rest, keys, before, after);
  }

  /** `ModulesStep` with the paths collected before the step in front. */
  lemma ModulesJoin(removed: seq<string>, removed': seq<string>, key: string, rest: seq<string>,
                    keys: seq<string>, before: Commands, after: Commands)
    requires keys == [key] + rest
    requires Find(before, key).Some? && removed' == removed + [Find(before, key).value.filePath]
    requires forall k :: Find(after, k) == if k == key then None else Find(before, k)
    requires forall i :: 0 <= i < |rest| ==> Find(after, rest[i]).Some?
    ensures forall i :: 0 <= i < |keys| ==> Find(before, keys[i]).Some?
    ensures removed' + ModulesOf(rest, after) == removed + ModulesOf(keys, before)
  {
    ModulesStep(key, rest, keys, before, after);
    AppendGrouped(removed, [Find(before, key).value.filePath], ModulesOf(rest, after));
  }

  lemma AppendGrouped(a: seq<string>, b: seq<string>, c: seq<string>)
    ensures a + b + c == a + (b + c)
  {
  }

  /** The module paths after removing `key` from the commands, preceded by
      the path of `key`, are the module paths of `[key] + rest` before. */
  lemma ModulesStep(key: string, rest: seq<string>, keys: seq<string>, before: Commands, after: Commands)
    requires keys == [key] + rest
    requires Find(before, key).Some?
    requires forall k :: Find(after, k) == if k == key then None else Find(before, k)
    requires forall i :: 0 <= i < |rest| ==> Find(after, rest[i]).Some?
    ensures forall i :: 0 <= i < |keys| ==> Find(before, keys[i]).Some?
    ensures [Find(before, key).value.filePath] + ModulesOf(rest, after) == ModulesOf(keys, before)
  {
    forall i | 0 <= i < |rest|
      ensures Find(before, rest[i]).Some? && Find(after, rest[i]) == Find(before, rest[i])
    {
      assert Find(after, rest[i]).Some?;
    }
    forall i | 0 <= i < |keys|
      ensures Find(before, keys[i]).Some?
    {
      if i > 0 {
        assert keys[i] == rest[i - 1];
      }
    }
    ModulesOfAgree(rest, after, before);
    ModulesOfCons(keys, before);
  }

  /** The loop takes each selected key's first occurrence out of every
      reference list; no list is deleted. */
  lemma {:induction false} RemoveAllReferences(keys: seq<string>, st: Pruning)
    requires RemoveAll(keys, st).Success?
    ensures var r := RemoveAll(keys, st).value;
      && (r.entry.dependenciesByCommand.Some? <==> st.entry.dependenciesByCommand.Some?)
      && (st.entry.dependenciesByCommand.Some? ==>
            var before := st.entry.dependenciesByCommand.value;
            var after := r.entry.dependenciesByCommand.value;
            && after.Keys == before.Keys
            && forall d :: d in before ==> multiset(after[d]) == multiset(before[d]) - multiset(keys))
    decreases |keys|
  {
    if |keys| > 0 {
      var key, rest := keys[0], keys[1..];
      var next := RemoveOne(key, st).value;
      assert RemoveAll(keys, st) == RemoveAll(rest, next);
      var r := RemoveAll(rest, next).value;
      RemoveOneReferences(key, st);
      RemoveAllReferences(rest, next);
      ReferencesThenRest(st.entry.dependenciesByCommand, next.entry.dependenciesByCommand,
                         r.entry.dependenciesByCommand, key, rest, keys);
    }
  }

  /** `UnlistThenRest` for reference maps that may be absent. */
  lemma ReferencesThenRest(before: Option<References>, mid: Option<References>, after: Option<References>,
                           key: string, rest: seq<string>, keys: seq<string>)
    requires keys == [key] + rest
    requires mid.Some? <==> before.Some?
    requires before.Some? ==>
      && mid.value.Keys == before.value.Keys
      && forall d :: d in before.value ==> multiset(mid.value[d]) == multiset(before.value[d]) - multiset{key}
    requires after.Some? <==> mid.Some?
    requires mid.Some? ==>
      && after.value.Keys == mid.value.Keys
      && forall d :: d in mid.value ==> multiset(after.value[d]) == multiset(mid.value[d]) - multiset(rest)
    ensures after.Some? <==> before.Some?
    ensures before.Some? ==>
      && after.value.Keys == before.value.Keys
      && forall d :: d in before.value ==> multiset(after.value[d]) == multiset(before.value[d]) - multiset(keys)
  {
    if before.Some? {
      UnlistThenRest(before.value, mid.value, after.value, key, rest, keys);
    }
  }

  /** Taking `key` out of every list, and then the keys of `rest`, takes out
      the keys of `[key] + rest`. */
  lemma UnlistThenRest(before: References, mid: References, after: References,
                       key: string, rest: seq<string>, keys: seq<string>)
    requires keys == [key] + rest
    requires mid.Keys == before.Keys && after.Keys == mid.Keys
    requires forall d :: d in before ==> multiset(mid[d]) == multiset(before[d]) - multiset{key}
    requires forall d :: d in mid ==> multiset(after[d]) == multiset(mid[d]) - multiset(rest)
    ensures after.Keys == before.Keys
    ensures forall d :: d in before ==> multiset(after[d]) == multiset(before[d]) - multiset(keys)
  {
    assert multiset(keys) == multiset{key} + multiset(rest);
  }

  /** One step's pruning followed by the later steps' pruning deletes exactly
      the names the whole sequence of keys accounts for. */
  lemma PrunedFromStep(before: Option<map<string, string>>, mid: Option<map<string, string>>,
                       after: Option<map<string, string>>, refs: Option<References>, key: string, rest: seq<string>)
    requires refs.None? ==> mid == before
    requires refs.Some? ==> mid == Prune(before, Unreferenced(Unlist(refs.value, key)))
    requires PrunedFrom(mid, after, if refs.Some? then Some(Unlist(refs.value, key)) else None, rest)
    ensures PrunedFrom(before, after, refs, [key] + rest)
  {
    if before.Some? {
      forall n
        ensures Lookup(after.value, n) == if Pruned(refs, [key] + rest, n) then None else Lookup(before.value, n)
      {
        if refs.Some? && n in refs.value {
          PrunedStep(refs.value[n], key, rest);
        }
      }
    }
  }

  /** The loop deletes from both manifest maps, when present, exactly the
      names whose reference list the removed keys account for; nothing else in
      the manifest changes. */
  lemma {:induction false} RemoveAllManifest(keys: seq<string>, st: Pruning)
    requires RemoveAll(keys, st).Success?
    ensures var r := RemoveAll(keys, st).value;
      && r.manifest.fields == st.manifest.fields
      && PrunedFrom(st.manifest.dependencies, r.manifest.dependencies, st.entry.dependenciesByCommand, keys)
      && PrunedFrom(st.manifest.devDependencies, r.manifest.devDependencies, st.entry.dependenciesByCommand, keys)
    decreases |keys|
  {
    var r := RemoveAll(keys, st).value;
    if |keys| > 0 {
      var key := keys[0];
      var rest := keys[1..];
      var next := RemoveOne(key, st).value;
      RemoveOneSpec(key, st);
      RemoveAllManifest(rest, next);
      assert keys == [key] + rest;
      var refs := st.entry.dependenciesByCommand;
      PrunedFromStep(st.manifest.dependencies, next.manifest.dependencies, r.manifest.dependencies, refs, key, rest);
      PrunedFromStep(st.manifest.devDependencies, next.manifest.devDependencies, r.manifest.devDependencies, refs, key, rest);
    } else {
      assert r == st;
    }
  }

  /** A dependency is deleted from the manifest only when every command key
      recorded as needing it is among the removed keys. */
  lemma PrunedOnlyUnreferenced(refs: References, keys: seq<string>, name: string, k: string)
    requires Pruned(Some(refs), keys, name)
    requires k in refs[name]
    ensures k in keys
  {
    assert multiset(refs[name])[k] > 0;
  }

  /** Lines 14-17: the remove candidates are the home's command keys, none
      when there is no entry document. */
  function RemoveCandidates(home: Store): (r: Result<seq<string>, Error>)
    ensures r.Failure? <==> home.entry.Malformed?
    ensures home.entry.Missing? || home.entry.Blank? ==> r == Success([])
    ensures home.entry.Parsed? ==> r == Success(Keys(home.entry.value.commands))
  {
    match home.entry
    case Missing => Success([])
    case Blank => Success([])
    case Malformed => Failure(BadJson(EntryPath))
    case Parsed(e) => Success(Keys(e.commands))
  }

  /** Lines 41-94, without the deletion of the module files: the manifest
      must exist (no default), a missing or empty entry document starts from
      one with no commands and no references. */
  function RemoveCustomCommands(keys: seq<string>, home: Store): (r: Result<Pruning, Error>)
    ensures home.manifest.Missing? ==> r == Failure(NotFound(ManifestPath))
    ensures r.Success? ==> home.manifest.Parsed? && !home.entry.Malformed?
  {
    var manifest :- ReadJson(home.manifest, ManifestPath);
    var entry :- TryOpen(home.entry, EntryPath);
    RemoveAll(keys, Pruning(entry.GetOr(EmptyEntry), manifest, []))
  }

  /** The paths in `paths`. */
  function PathSet(paths: seq<string>): set<string> {
    set i | 0 <= i < |paths| :: paths[i]
  }

  /** The module paths of the chosen commands among `commands`. */
  function ChosenModules(commands: Commands, chosen: set<string>): set<string> {
    set k | k in chosen && Find(commands, k).Some? :: Find(commands, k).value.filePath
  }

  /** Removing distinct keys that are all present never fails. */
  lemma {:induction false} RemoveDistinctSucceeds(keys: seq<string>, st: Pruning)
    requires forall i, j :: 0 <= i < j < |keys| ==> keys[i] != keys[j]
    requires forall i :: 0 <= i < |keys| ==> Find(st.entry.commands, keys[i]).Some?
    ensures RemoveAll(keys, st).Success?
    decreases |keys|
  {
    if |keys| > 0 {
      var next := RemoveOne(keys[0], st).value;
      forall i | 0 <= i < |keys[1..]|
        ensures Find(next.entry.commands, keys[1..][i]).Some?
      {
        assert keys[1..][i] == keys[i + 1];
      }
      RemoveDistinctSucceeds(keys[1..], next);
    }
  }

  /** The keys of the chosen commands, in the order they are offered. */
  function Selection(home: Store, chosen: set<string>): seq<string> {
    Keys(Filter(HomeCommands(home), k => k in chosen))
  }

  /** The keys of a selection are chosen keys of commands. */
  lemma SelectedKeys(commands: Commands, chosen: set<string>, selected: Commands)
    requires forall k :: Find(selected, k) == if k in chosen then Find(commands, k) else None
    ensures forall i :: 0 <= i < |selected| ==> Keys(selected)[i] in chosen && Find(commands, Keys(selected)[i]).Some?
  {
    forall i | 0 <= i < |selected|
      ensures Keys(selected)[i] in chosen && Find(commands, Keys(selected)[i]).Some?
    {
      FindSpec(selected, Keys(selected)[i]);
    }
  }

  /** The modules of a selection are the modules of the chosen commands. */
  lemma SelectionModules(commands: Commands, chosen: set<string>, selected: Commands)
    requires forall k :: Find(selected, k) == if k in chosen then Find(commands, k) else None
    ensures forall i :: 0 <= i < |selected| ==> Keys(selected)[i] in chosen && Find(commands, Keys(selected)[i]).Some?
    ensures PathSet(ModulesOf(Keys(selected), commands)) == ChosenModules(commands, chosen)
  {
    SelectedKeys(commands, chosen, selected);
    SelectedModulesChosen(commands, chosen, selected);
    ChosenModulesSelected(commands, chosen, selected);
  }

  lemma SelectedModulesChosen(commands: Commands, chosen: set<string>, selected: Commands)
    requires forall i :: 0 <= i < |selected| ==> Keys(selected)[i] in chosen && Find(commands, Keys(selected)[i]).Some?
    ensures PathSet(ModulesOf(Keys(selected), commands)) <= ChosenModules(commands, chosen)
  {
    var keys := Keys(selected);
    var removed := ModulesOf(keys, commands);
    forall p | p in PathSet(removed)
      ensures p in ChosenModules(commands, chosen)
    {
      var i :| 0 <= i < |removed| && removed[i] == p;
      assert keys[i] in chosen && Find(commands, keys[i]).value.filePath == p;
    }
  }

  lemma ChosenModulesSelected(commands: Commands, chosen: set<string>, selected: Commands)
    requires forall k :: Find(selected, k) == if k in chosen then Find(commands, k) else None
    requires forall i :: 0 <= i < |selected| ==> Keys(selected)[i] in chosen && Find(commands, Keys(selected)[i]).Some?
    ensures ChosenModules(commands, chosen) <= PathSet(ModulesOf(Keys(selected), commands))
  {
    forall p | p in ChosenModules(commands, chosen)
      ensures p in PathSet(ModulesOf(Keys(selected), commands))
    {
      var k :| k in chosen && Find(commands, k).Some? && Find(commands, k).value.filePath == p;
      SelectedModule(commands, selected, k);
    }
  }

  /** A command in the selection contributes its module path. */
  lemma SelectedModule(commands: Commands, selected: Commands, k: string)
    requires Find(commands, k).Some? && Find(selected, k) == Find(commands, k)
    requires forall i :: 0 <= i < |selected| ==> Find(commands, Keys(selected)[i]).Some?
    ensures Find(commands, k).value.filePath in PathSet(ModulesOf(Keys(selected), commands))
  {
    var keys := Keys(selected);
    var removed := ModulesOf(keys, commands);
    FindSpec(selected, k);
    var i :| 0 <= i < |keys| && keys[i] == k;
    assert removed[i] == Find(commands, k).value.filePath;
  }

  /** The selection can always be removed, and the modules it removes are
      those of the chosen commands. */
  lemma SelectionRemovable(home: Store, chosen: set<string>)
    requires home.manifest.Parsed? && !home.entry.Malformed?
    ensures RemoveCustomCommands(Selection(home, chosen), home).Success?
    ensures PathSet(RemoveCustomCommands(Selection(home, chosen), home).value.removed)
         == ChosenModules(HomeCommands(home), chosen)
  {
    var commands := HomeCommands(home);
    var keys := Keys(Filter(commands, k => k in chosen));
    var st := Pruning(if home.entry.Parsed? then home.entry.value else EmptyEntry, home.manifest.value, []);
    assert st.entry.commands == commands;
    SelectionModules(commands, chosen, Filter(commands, k => k in chosen));
    RemoveDistinctSucceeds(keys, st);
    RemoveAllModules(keys, st);
    assert RemoveCustomCommands(keys, home) == RemoveAll(keys, st);
    assert RemoveAll(keys, st).value.removed == ModulesOf(keys, commands) by {
      assert [] + ModulesOf(keys, commands) == ModulesOf(keys, commands);
    }
  }

  /** Lines 13-38 and 87-93: offer the home's commands, remove the chosen ones
      in the order offered, write both documents back and delete the modules
      of the removed commands. */
  function RemoveCommand(home: Store, chosen: set<string>): (r: Result<Store, Error>)
    ensures r.Failure? <==> home.entry.Malformed? || !home.manifest.Parsed?
    ensures r.Success? ==> r.value.entry.Parsed? && r.value.manifest.Parsed?
    ensures r.Success? ==> r.value.files == home.files - ChosenModules(HomeCommands(home), chosen)
  {
    var _ :- RemoveCandidates(home);
    var keys := Selection(home, chosen);
    if home.manifest.Parsed? then
      SelectionRemovable(home, chosen);
      var done := RemoveCustomCommands(keys, home).value;
      Success(Store(Parsed(done.entry), Parsed(done.manifest), home.files - PathSet(done.removed)))
    else
      Failure(ReadJson(home.manifest, ManifestPath).error)
  }

  /** Unchosen commands stay, chosen ones go; the commands stay sorted. */
  lemma RemoveCommandCommands(home: Store, chosen: set<string>)
    requires RemoveCommand(home, chosen).Success?
    ensures var c := RemoveCommand(home, chosen).value.entry.value.commands;
            && (forall k :: Find(c, k) == if k in chosen then None else Find(HomeCommands(home), k))
            && (Sorted(HomeCommands(home)) ==> Sorted(c))
  {
    var commands := HomeCommands(home);
    var keys := Selection(home, chosen);
    var selected := Filter(commands, k => k in chosen);
    SelectionRemovable(home, chosen);
    var st := Pruning(if home.entry.Parsed? then home.entry.value else EmptyEntry, home.manifest.value, []);
    RemoveAllCommands(keys, st);
    forall k
      ensures k in keys <==> k in chosen && Find(commands, k).Some?
    {
      FindSpec(selected, k);
      FindSpec(commands, k);
    }
  }

  /** The references the removal starts from: none for an entry document
      without `dependenciesByCommand`, an empty map when there is no entry
      document. */
  function PriorReferences(home: Store): Option<References> {
    if home.entry.Parsed? then home.entry.value.dependenciesByCommand else Some(map[])
  }

  /** What `RemoveCommand` writes into the two documents: each chosen key is
      taken out of every reference list once, emptied lists stay, and both
      manifest maps lose exactly the names whose list the chosen keys account
      for; everything else in the manifest is as it was. */
  lemma RemoveCommandDocuments(home: Store, chosen: set<string>)
    requires RemoveCommand(home, chosen).Success?
    ensures var r := RemoveCommand(home, chosen).value;
            var keys := Selection(home, chosen);
            var refs := PriorReferences(home);
            var m := home.manifest.value;
            && (r.entry.value.dependenciesByCommand.Some? <==> refs.Some?)
            && (refs.Some? ==>
                  && r.entry.value.dependenciesByCommand.value.Keys == refs.value.Keys
                  && forall d :: d in refs.value ==>
                       multiset(r.entry.value.dependenciesByCommand.value[d]) == multiset(refs.value[d]) - multiset(keys))
            && r.manifest.value.fields == m.fields
            && PrunedFrom(m.dependencies, r.manifest.value.dependencies, refs, keys)
            && PrunedFrom(m.devDependencies, r.manifest.value.devDependencies, refs, keys)
  {
    var keys := Selection(home, chosen);
    SelectionRemovable(home, chosen);
    var st := Pruning(if home.entry.Parsed? then home.entry.value else EmptyEntry, home.manifest.value, []);
    RemoveAllReferences(keys, st);
    RemoveAllManifest(keys, st);
  }
}

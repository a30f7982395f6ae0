/** The persisted state of the command registry: the entry document
    (`entry.json`), the package manifest (`package.json`) and the other files
    of the home directory, plus the rules by which the operations read a
    document (types.ts, utils/file.ts, constants/commands.ts). */
module Registry {
  import opened Wrappers
  import opened Records

  /** One registered command as stored in `entry.json`. */
  datatype CommandEntry = CommandEntry(helpText: string, examples: seq<string>, filePath: string)

  /** `commands`: command key -> descriptor, in the document's key order. */
  type Commands = Record<CommandEntry>

  /** `dependenciesByCommand`: dependency name -> keys of the commands that
      were recorded as needing it. */
  type References = map<string, seq<string>>

  /** The entry document. `dependenciesByCommand` is optional: the older
      writer and the declared `EntryJson` type do not have it. */
  datatype Entry = Entry(commands: Commands, dependenciesByCommand: Option<References>)

  /** The package manifest: `dependencies` and `devDependencies` may be absent;
      every other top-level field is carried along unchanged in `fields`. */
  datatype Manifest = Manifest(
    fields: map<string, string>,
    dependencies: Option<map<string, string>>,
    devDependencies: Option<map<string, string>>)

  /** A JSON document on disk: no file, an empty file, text that does not
      parse, or a parsed value. */
  datatype Doc<T> = Missing | Blank | Malformed | Parsed(value: T)

  /** A directory holding a registry: the home directory, or a folder that
      commands are imported from. `files` maps a path relative to the
      directory to the file's text (command modules, `.env`). */
  datatype Store = Store(entry: Doc<Entry>, manifest: Doc<Manifest>, files: map<string, string>)

  /** What an operation throws. */
  datatype Error =
    | NotFound(path: string)   // `fs.readFile` / `fs.copyFile` on a missing file
    | BadJson(path: string)    // `JSON.parse` on empty or malformed text
    | TypeError                // a property read on `undefined`

  const EntryPath: string := "entry.json"
  const ManifestPath: string := "package.json"
  const EnvPath: string := ".env"

  /** Keys of `DEFAULT_COMMANDS`, the built-in commands. */
  const BuiltinKeys: seq<string> := ["env", "import"]

  /** The entry document the operations start from when there is none. */
  const EmptyEntry: Entry := Entry([], Some(map[]))

  /** The commands of a store's entry document, none when it has none. */
  function HomeCommands(home: Store): Commands {
    if home.entry.Parsed? then home.entry.value.commands else []
  }

  /** `tryOpenFileIfExist` followed by `if (!text) ...; JSON.parse(text)`:
      a missing or empty file is "nothing", malformed text throws. */
  function TryOpen<T>(doc: Doc<T>, path: string): (r: Result<Option<T>, Error>)
    ensures r == Success(None) <==> doc.Missing? || doc.Blank?
    ensures r.Failure? <==> doc.Malformed?
    ensures r.Failure? ==> r.error == BadJson(path)
    ensures doc.Parsed? ==> r == Success(Some(doc.value))
  {
    match doc
    case Missing => Success(None)
    case Blank => Success(None)
    case Malformed => Failure(BadJson(path))
    case Parsed(v) => Success(Some(v))
  }

  /** `JSON.parse(await fs.readFile(path))`: a missing file and an empty file
      are both errors. */
  function ReadJson<T>(doc: Doc<T>, path: string): (r: Result<T, Error>)
    ensures r.Success? <==> doc.Parsed?
    ensures doc.Parsed? ==> r.value == doc.value
    ensures doc.Missing? ==> r == Failure(NotFound(path))
    ensures doc.Blank? || doc.Malformed? ==> r == Failure(BadJson(path))
  {
    match doc
    case Missing => Failure(NotFound(path))
    case Blank => Failure(BadJson(path))
    case Malformed => Failure(BadJson(path))
    case Parsed(v) => Success(v)
  }

  /** `name.startsWith('.')`: a relative import, never a package. */
  predicate IsRelative(name: string) {
    |name| > 0 && name[0] == '.'
  }

  /** Some module among those of `keys` imports `name`. */
  predicate Mentioned(keys: seq<string>, specs: string -> seq<string>, name: string) {
    exists i :: 0 <= i < |keys| && name in specs(keys[i])
  }

  /** Some module among those of `keys` imports a package (a non-relative name). */
  predicate ImportsPackage(keys: seq<string>, specs: string -> seq<string>) {
    exists i, n :: 0 <= i < |keys| && n in specs(keys[i]) && !IsRelative(n)
  }

  /** `deps[name]` on a defined object, `None` standing for `undefined`. */
  function Lookup(deps: map<string, string>, name: string): Option<string>
  {
    if name in deps then Some(deps[name]) else None
  }

  /** `refs[name]`, or the empty list the import creates when it is absent. */
  function RefList(refs: References, name: string): seq<string>
  {
    if name in refs then refs[name] else []
  }

  /** `{...base, ...staged}` written out as JSON: staged names win, and a name
      staged as `undefined` disappears from the document. */
  function Overlay(base: map<string, string>, staged: map<string, Option<string>>): (r: map<string, string>)
    ensures forall n :: Lookup(r, n) == if n in staged then staged[n] else Lookup(base, n)
  {
    map n | n in base.Keys + staged.Keys && (n in staged ==> staged[n].Some?) ::
      if n in staged then staged[n].value else base[n]
  }

  /** Maps that answer every lookup alike are equal. */
  lemma LookupExtensional(a: map<string, string>, b: map<string, string>)
    requires forall n :: Lookup(a, n) == Lookup(b, n)
    ensures a == b
  {
    assert forall n :: n in a <==> Lookup(a, n).Some?;
    assert a.Keys == b.Keys;
  }

  /** A name is imported by the modules of `keys` when the first imports it or
      one of the others does. */
  lemma MentionedCons(keys: seq<string>, specs: string -> seq<string>, name: string)
    requires |keys| > 0
    ensures Mentioned(keys, specs, name) <==> name in specs(keys[0]) || Mentioned(keys[1..], specs, name)
  {
    if Mentioned(keys[1..], specs, name) {
      var i :| 0 <= i < |keys[1..]| && name in specs(keys[1..][i]);
      assert keys[1..][i] == keys[i + 1];
    }
    if Mentioned(keys, specs, name) && name !in specs(keys[0]) {
      var i :| 0 <= i < |keys| && name in specs(keys[i]);
      assert keys[1..][i - 1] == keys[i];
    }
  }

  /** Both maps agree at `name`: both lack it or both hold the same value. */
  ghost predicate SameAt<V>(a: map<string, V>, b: map<string, V>, name: string) {
    (name in a <==> name in b) && (name in a ==> a[name] == b[name])
  }

  /** Maps that agree at every name are equal. */
  lemma SameEverywhere<V>(a: map<string, V>, b: map<string, V>)
    requires forall n :: SameAt(a, b, n)
    ensures a == b
  {
    forall n
      ensures (n in a <==> n in b) && (n in a ==> a[n] == b[n])
    {
      assert SameAt(a, b, n);
    }
  }
}

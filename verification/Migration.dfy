/**
Moving a project's identities from one legacy file to a tree of files, one per
declaration: many file writes, one delete and one config edit, each of which
may be the last thing that happens. A guard stops every other reader from
taking a missing legacy file for a project without identities.
*/
module Migration {
  import opened Catalog

  type Path = string
  type Text = string

  /** The entries of the identity directory. */
  datatype IdsDir =
    | Absent
    | NotADirectory
    | Directory(files: map<Path, Text>, strays: set<Path>, nested: bool)

  /** A legacy file either reads as a mapping or is damaged. */
  datatype Legacy<Ids> = Mapping(ids: Ids) | Damaged

  /** What survives a kill: the identity directory, the legacy files by path, and pbps.yml by line. */
  datatype Disk<Ids> = Disk(dir: IdsDir, legacy: map<Path, Legacy<Ids>>, config: seq<string>)

  /** The keys of pbps.yml the migration reads; `rest` is every other setting. */
  datatype Config = Config(idsFile: Path, idsDir: Option<Path>, rest: string)

  const DEFAULT_IDS_FILE: Path := "schema.ids.json"
  const DEFAULT_IDS_DIR: Path := ".pbps/ids"

  /**
  What the commands rely on and this model does not open: where the
  declarations put each identity (`place`, refusing by `None`), how a tree
  reads back, and how pbps.yml parses.
  */
  datatype Rules<!Ids, !Decls> = Rules(
    place: (Ids, Decls) -> Option<seq<(Path, Text)>>,
    assemble: map<Path, Text> -> Option<Ids>,
    parse: seq<string> -> Option<Config>)

  datatype Outcome =
    | Migrated | Finished | AlreadyMigrated
    | NothingToMigrate | UnreadableTree | UnreadableConfig | DamagedLegacy
    | Unplaceable | BadRoundTrip | ForeignTree | UneditableConfig
  {
    predicate Success() {
      Migrated? || Finished? || AlreadyMigrated?
    }
  }

  /** One persistent effect. Publishing is the rename that replaces the temporary name. */
  datatype Write =
    | MakeDirs(path: Path)
    | WriteTemp(path: Path)
    | Publish(path: Path, text: Text)
    | RemoveLegacy(path: Path)
    | ReplaceConfig(lines: seq<string>)

  // -------------------------------------------------------------- file system

  function Files(dir: IdsDir): map<Path, Text> {
    if dir.Directory? then dir.files else map[]
  }

  function Strays(dir: IdsDir): set<Path> {
    if dir.Directory? then dir.strays else {}
  }

  function Nested(dir: IdsDir): bool {
    dir.Directory? && dir.nested
  }

  function Apply<Ids>(d: Disk<Ids>, w: Write): Disk<Ids> {
    match w
    case MakeDirs(path) => d.(dir := Directory(Files(d.dir), Strays(d.dir), Nested(d.dir) || '/' in path))
    case WriteTemp(path) => d.(dir := Directory(Files(d.dir), Strays(d.dir) + {path}, Nested(d.dir)))
    case Publish(path, text) => d.(dir := Directory(Files(d.dir)[path := text], Strays(d.dir) - {path}, Nested(d.dir)))
    case RemoveLegacy(path) => d.(legacy := d.legacy - {path})
    case ReplaceConfig(lines) => d.(config := lines)
  }

  function ApplyAll<Ids>(d: Disk<Ids>, ws: seq<Write>): Disk<Ids>
    decreases |ws|
  {
    if ws == [] then d else ApplyAll(Apply(d, ws[0]), ws[1..])
  }

  /** The tree reader refuses whatever is neither a directory nor a `.json` file, a leftover temporary name included. */
  function ReadTree(dir: IdsDir): Option<map<Path, Text>> {
    match dir
    case Absent => Some(map[])
    case NotADirectory => None
    case Directory(files, strays, _) => if strays == {} then Some(files) else None
  }

  // ---------------------------------------------------------------- the config

  predicate StartsWith(line: string, key: string) {
    |key| <= |line| && line[..|key|] == key
  }

  predicate NamesKey(lines: seq<string>, key: string) {
    exists i :: 0 <= i < |lines| && StartsWith(lines[i], key)
  }

  function WithoutKey(lines: seq<string>, key: string): seq<string> {
    if lines == [] then []
    else (if StartsWith(lines[0], key) then [] else [lines[0]]) + WithoutKey(lines[1..], key)
  }

  function IdsDirOf(c: Config): Path {
    if c.idsDir.Some? then c.idsDir.value else DEFAULT_IDS_DIR
  }

  datatype Edit = Keep | Replace(lines: seq<string>) | Refuse

  /** pbps.yml with `ids_file` removed and `ids_dir` named, proved by reading it back. */
  function NewConfig(parse: seq<string> -> Option<Config>, lines: seq<string>, c: Config): Edit {
    if !NamesKey(lines, "ids_file:") && NamesKey(lines, "ids_dir:") then Keep
    else
      var kept := WithoutKey(lines, "ids_file:");
      var text := if NamesKey(lines, "ids_dir:") then kept else kept + ["ids_dir: " + IdsDirOf(c)];
      if parse(text) == Some(Config(DEFAULT_IDS_FILE, Some(IdsDirOf(c)), c.rest)) then Replace(text) else Refuse
  }

  lemma {:induction false} WithoutKeyNames(lines: seq<string>, key: string, other: string)
    ensures !NamesKey(WithoutKey(lines, key), key)
    ensures !StartsWith(other, key) && !StartsWith(key, other) ==>
      (NamesKey(WithoutKey(lines, key), other) <==> NamesKey(lines, other))
  {
    if lines != [] {
      WithoutKeyNames(lines[1..], key, other);
      var head, tail := (if StartsWith(lines[0], key) then [] else [lines[0]]), WithoutKey(lines[1..], key);
      NamesKeyConcat(head, tail, key);
      NamesKeyConcat(head, tail, other);
      NamesKeyConcat([lines[0]], lines[1..], other);
      assert lines == [lines[0]] + lines[1..];
      if StartsWith(lines[0], key) && StartsWith(lines[0], other) {
        PrefixesNest(lines[0], key, other);
      }
    }
  }

  lemma PrefixesNest(line: string, a: string, b: string)
    requires StartsWith(line, a) && StartsWith(line, b)
    ensures StartsWith(a, b) || StartsWith(b, a)
  {
    if |a| <= |b| {
      assert b[..|a|] == line[..|b|][..|a|] == line[..|a|];
    } else {
      assert a[..|b|] == line[..|a|][..|b|] == line[..|b|];
    }
  }

  lemma NamesKeyConcat(a: seq<string>, b: seq<string>, key: string)
    ensures NamesKey(a + b, key) <==> NamesKey(a, key) || NamesKey(b, key)
  {
    if NamesKey(a, key) {
      var i :| 0 <= i < |a| && StartsWith(a[i], key);
      assert (a + b)[i] == a[i];
    }
    if NamesKey(b, key) {
      var i :| 0 <= i < |b| && StartsWith(b[i], key);
      assert (a + b)[|a| + i] == b[i];
    }
  }

  /** An edited config is one the next run keeps. */
  lemma EditSettles(parse: seq<string> -> Option<Config>, lines: seq<string>, c: Config)
    requires NewConfig(parse, lines, c).Replace?
    ensures NewConfig(parse, NewConfig(parse, lines, c).lines,
                      Config(DEFAULT_IDS_FILE, Some(IdsDirOf(c)), c.rest)) == Keep
  {
    var kept := WithoutKey(lines, "ids_file:");
    assert "ids_file:"[..8][4] == 'f' && "ids_dir:"[4] == 'd';
    WithoutKeyNames(lines, "ids_file:", "ids_dir:");
    var line := "ids_dir: " + IdsDirOf(c);
    assert line[..8] == "ids_dir:";
    assert line[..9][4] == 'd';
    NamesKeyConcat(kept, [line], "ids_file:");
    NamesKeyConcat(kept, [line], "ids_dir:");
    assert [line][0] == line;
  }

  // ----------------------------------------------------------------- the tree

  predicate DistinctPaths(files: seq<(Path, Text)>) {
    forall i, j :: 0 <= i < j < |files| ==> files[i].0 != files[j].0
  }

  function MapOf(files: seq<(Path, Text)>): map<Path, Text> {
    if files == [] then map[] else MapOf(files[1..])[files[0].0 := files[0].1]
  }

  /** Every file of `tree` is one of `files`, byte for byte. */
  predicate Within(tree: map<Path, Text>, files: map<Path, Text>) {
    forall p :: p in tree ==> p in files && tree[p] == files[p]
  }

  /** What is written for the files `tree` does not hold yet, in order. */
  function FileWrites(files: seq<(Path, Text)>, tree: map<Path, Text>): seq<Write> {
    if files == [] then []
    else
      OneWrite(files[0], tree) + FileWrites(files[1..], tree)
  }

  function OneWrite(file: (Path, Text), tree: map<Path, Text>): seq<Write> {
    if file.0 in tree && tree[file.0] == file.1 then [] else AtomicWrite(file.0, file.1)
  }

  lemma Associate<T>(a: seq<T>, b: seq<T>, c: seq<T>)
    ensures a + (b + c) == (a + b) + c
  {
  }

  lemma FileWritesStep<Ids>(d: Disk<Ids>, files: seq<(Path, Text)>, tree: map<Path, Text>, i: nat)
    requires i < |files|
    ensures var d' := ApplyAll(d, OneWrite(files[i], tree));
      && ApplyAll(d, FileWrites(files[i..], tree)) == ApplyAll(d', FileWrites(files[i + 1..], tree))
      && States(d, FileWrites(files[i..], tree))
         == States(d, OneWrite(files[i], tree)) + States(d', FileWrites(files[i + 1..], tree))
  {
    assert files[i..][0] == files[i] && files[i..][1..] == files[i + 1..];
    StatesConcat(d, OneWrite(files[i], tree), FileWrites(files[i + 1..], tree));
  }

  /** A write through a temporary name in the same directory. */
  function AtomicWrite(path: Path, text: Text): seq<Write> {
    [MakeDirs(path), WriteTemp(path), Publish(path, text)]
  }

  function ConfigWrites(edit: Edit): seq<Write> {
    if edit.Replace? then [ReplaceConfig(edit.lines)] else []
  }

  // ------------------------------------------------------------- one attempt

  /** Everything one run of the command writes, in order, and how it ends if it is not killed. */
  function Attempt<Ids(==), Decls>(rules: Rules<Ids, Decls>, d: Disk<Ids>, decls: Decls): (seq<Write>, Outcome) {
    var config := rules.parse(d.config);
    var tree := ReadTree(d.dir);
    if config.None? then ([], UnreadableConfig)
    else if tree.None? then ([], UnreadableTree)
    else if config.value.idsFile !in d.legacy then Resume(rules, d, config.value, tree.value)
    else if d.legacy[config.value.idsFile].Damaged? then ([], DamagedLegacy)
    else Convert(rules, d, config.value, tree.value, d.legacy[config.value.idsFile].ids, decls)
  }

  /** The legacy file is gone: an interrupted run, or one that finished. */
  function Resume<Ids(==), Decls>(rules: Rules<Ids, Decls>, d: Disk<Ids>, config: Config,
                                  tree: map<Path, Text>): (seq<Write>, Outcome)
  {
    if tree == map[] then ([], NothingToMigrate)
    else match NewConfig(rules.parse, d.config, config)
      case Keep => ([], AlreadyMigrated)
      case Replace(lines) => ([ReplaceConfig(lines)], Finished)
      case Refuse => ([], UneditableConfig)
  }

  function Convert<Ids(==), Decls>(rules: Rules<Ids, Decls>, d: Disk<Ids>, config: Config, tree: map<Path, Text>,
                                   ids: Ids,
                                   decls: Decls): (seq<Write>, Outcome) {
    var files := rules.place(ids, decls);
    var edit := NewConfig(rules.parse, d.config, config);
    if files.None? then ([], Unplaceable)
    else if rules.assemble(MapOf(files.value)) != Some(ids) then ([], BadRoundTrip)
    else if !Within(tree, MapOf(files.value)) then ([], ForeignTree)
    else if edit.Refuse? then ([], UneditableConfig)
    else (FileWrites(files.value, tree) + [RemoveLegacy(config.idsFile)] + ConfigWrites(edit), Migrated)
  }

  /** The command as it runs: each effect reaches the disk before the next one starts. */
  class Project<Ids(==), Decls> {
    var disk: Disk<Ids>
    ghost var history: seq<Disk<Ids>>

    constructor (disk: Disk<Ids>)
      ensures this.disk == disk && history == []
    {
      this.disk := disk;
      history := [];
    }

    method Do(w: Write)
      modifies this
      ensures disk == Apply(old(disk), w) && history == old(history) + [disk]
    {
      disk := Apply(disk, w);
      history := history + [disk];
    }

    method WriteOne(file: (Path, Text), tree: map<Path, Text>)
      modifies this
      ensures disk == ApplyAll(old(disk), OneWrite(file, tree))
      ensures history == old(history) + States(old(disk), OneWrite(file, tree))
    {
      var (path, text) := file;
      if !(path in tree && tree[path] == text) {
        ghost var d0 := disk;
        Do(MakeDirs(path));
        Do(WriteTemp(path));
        Do(Publish(path, text));
        StatesOfThree(d0, MakeDirs(path), WriteTemp(path), Publish(path, text));
      }
    }

    method WriteFiles(files: seq<(Path, Text)>, tree: map<Path, Text>)
      modifies this
      ensures disk == ApplyAll(old(disk), FileWrites(files, tree))
      ensures history == old(history) + States(old(disk), FileWrites(files, tree))
    {
      ghost var goal, trace := ApplyAll(disk, FileWrites(files, tree)), history + States(disk, FileWrites(files, tree));
      var i := 0;
      assert files[0..] == files;
      while i < |files|
        invariant i <= |files|
        invariant goal == ApplyAll(disk, FileWrites(files[i..], tree))
        invariant trace == history + States(disk, FileWrites(files[i..], tree))
      {
        ghost var one, rest := States(disk, OneWrite(files[i], tree)),
                               States(ApplyAll(disk, OneWrite(files[i], tree)), FileWrites(files[i + 1..], tree));
        FileWritesStep(disk, files, tree, i);
        Associate(history, one, rest);
        WriteOne(files[i], tree);
        i := i + 1;
      }
    }

    method Finish(rules: Rules<Ids, Decls>, config: Config, tree: map<Path, Text>) returns (r: Outcome)
      modifies this
      ensures r == Resume(rules, old(disk), config, tree).1
      ensures disk == ApplyAll(old(disk), Resume(rules, old(disk), config, tree).0)
      ensures history == old(history) + States(old(disk), Resume(rules, old(disk), config, tree).0)
    {
      if tree == map[] { return NothingToMigrate; }
      match NewConfig(rules.parse, disk.config, config) {
        case Keep => return AlreadyMigrated;
        case Refuse => return UneditableConfig;
        case Replace(lines) =>
          Do(ReplaceConfig(lines));
          return Finished;
      }
    }

    method WriteAll(files: seq<(Path, Text)>, tree: map<Path, Text>, idsFile: Path, edit: Edit)
      modifies this
      ensures disk == ApplyAll(old(disk), FileWrites(files, tree) + [RemoveLegacy(idsFile)] + ConfigWrites(edit))
      ensures history == old(history) + States(old(disk),
                                               FileWrites(files, tree) + [RemoveLegacy(idsFile)] + ConfigWrites(edit))
    {
      ghost var d0, writes := disk, FileWrites(files, tree);
      WriteFiles(files, tree);
      StatesConcat(d0, writes, [RemoveLegacy(idsFile)]);
      Do(RemoveLegacy(idsFile));
      StatesConcat(d0, writes + [RemoveLegacy(idsFile)], ConfigWrites(edit));
      if edit.Replace? { Do(ReplaceConfig(edit.lines)); }
    }

    method Migrate(rules: Rules<Ids, Decls>, decls: Decls) returns (r: Outcome)
      modifies this
      ensures r == Attempt(rules, old(disk), decls).1
      ensures disk == ApplyAll(old(disk), Attempt(rules, old(disk), decls).0)
      ensures history == old(history) + States(old(disk), Attempt(rules, old(disk), decls).0)
    {
      var config := rules.parse(disk.config);
      if config.None? { return UnreadableConfig; }
      var tree := ReadTree(disk.dir);
      if tree.None? { return UnreadableTree; }
      var idsFile := config.value.idsFile;
      if idsFile !in disk.legacy {
        r := Finish(rules, config.value, tree.value);
        return;
      }
      if disk.legacy[idsFile].Damaged? { return DamagedLegacy; }
      var ids := disk.legacy[idsFile].ids;
      var files := rules.place(ids, decls);
      if files.None? { return Unplaceable; }
      if rules.assemble(MapOf(files.value)) != Some(ids) { return BadRoundTrip; }
      if !Within(tree.value, MapOf(files.value)) { return ForeignTree; }
      var edit := NewConfig(rules.parse, disk.config, config.value);
      if edit.Refuse? { return UneditableConfig; }
      WriteAll(files.value, tree.value, idsFile, edit);
      return Migrated;
    }
  }

  /** The disk after each of `ws`. */
  ghost function States<Ids>(d: Disk<Ids>, ws: seq<Write>): seq<Disk<Ids>>
    decreases |ws|
  {
    if ws == [] then [] else [Apply(d, ws[0])] + States(Apply(d, ws[0]), ws[1..])
  }

  lemma {:induction false} StatesConcat<Ids>(d: Disk<Ids>, a: seq<Write>, b: seq<Write>)
    ensures ApplyAll(d, a + b) == ApplyAll(ApplyAll(d, a), b)
    ensures States(d, a + b) == States(d, a) + States(ApplyAll(d, a), b)
    decreases |a|
  {
    if a == [] {
      assert a + b == b;
    } else {
      StatesConcat(Apply(d, a[0]), a[1..], b);
      assert (a + b)[1..] == a[1..] + b;
    }
  }

  lemma StatesOfThree<Ids>(d: Disk<Ids>, a: Write, b: Write, c: Write)
    ensures ApplyAll(d, [a, b, c]) == Apply(Apply(Apply(d, a), b), c)
    ensures States(d, [a, b, c]) == [Apply(d, a), Apply(Apply(d, a), b), Apply(Apply(Apply(d, a), b), c)]
  {
    StatesConcat(d, [a], [b, c]);
    StatesConcat(Apply(d, a), [b], [c]);
    assert [a, b, c] == [a] + [b, c] && [b, c] == [b] + [c];
  }

  /** The states the command passes through are the prefixes of what it writes. */
  lemma {:induction false} StatesArePrefixes<Ids>(d: Disk<Ids>, ws: seq<Write>, k: nat)
    requires k < |ws|
    ensures |States(d, ws)| == |ws| && States(d, ws)[k] == ApplyAll(d, ws[..k + 1])
    decreases |ws|
  {
    assert ws[..k + 1][0] == ws[0] && ws[..k + 1][1..] == ws[1..][..k];
    if k > 0 {
      StatesArePrefixes(Apply(d, ws[0]), ws[1..], k - 1);
    } else if |ws| > 1 {
      StatesArePrefixes(Apply(d, ws[0]), ws[1..], 0);
    }
  }

  // ------------------------------------------------------------------- crashes

  /** One run of the command over the declarations as they then are, killed after some of its writes. */
  datatype Try<Decls> = Try(decls: Decls, survived: nat)

  function CrashOnce<Ids(==), Decls>(rules: Rules<Ids, Decls>, d: Disk<Ids>, t: Try<Decls>): Disk<Ids> {
    var writes := Attempt(rules, d, t.decls).0;
    ApplyAll(d, writes[..if t.survived < |writes| then t.survived else |writes|])
  }

  function Crash<Ids(==), Decls>(rules: Rules<Ids, Decls>, d: Disk<Ids>, tries: seq<Try<Decls>>): Disk<Ids>
    decreases |tries|
  {
    if tries == [] then d else Crash(rules, CrashOnce(rules, d, tries[0]), tries[1..])
  }

  /** A placement is a map: no path twice. */
  ghost predicate Sound<Ids(!new), Decls(!new)>(rules: Rules<Ids, Decls>) {
    forall ids, decls :: rules.place(ids, decls).Some? ==> DistinctPaths(rules.place(ids, decls).value)
  }

  // ---------------------------------------------------------------- the reader

  datatype Reading<Ids> = Found(ids: Ids) | NoIdentities | Refused

  predicate TreePresent(dir: IdsDir) {
    match dir
    case Absent => false
    case NotADirectory => true
    case Directory(files, strays, nested) => files != map[] || strays != {} || nested
  }

  /** Every other command's way to the identities. */
  function Read<Ids, Decls>(rules: Rules<Ids, Decls>, d: Disk<Ids>): Reading<Ids> {
    var config := rules.parse(d.config);
    if config.None? then Refused
    else if config.value.idsFile in d.legacy then
      match d.legacy[config.value.idsFile]
      case Mapping(ids) => Found(ids)
      case Damaged => Refused
    else if TreePresent(d.dir) then Refused
    else NoIdentities
  }

  // -------------------------------------------------------- nothing is lost

  /**
  A file waits at the default path, and the project names another one: the
  config the migration writes falls back to it.
  */
  predicate FallsBack<Ids(==), Decls>(rules: Rules<Ids, Decls>, d: Disk<Ids>) {
    && rules.parse(d.config).Some?
    && var config := rules.parse(d.config).value;
      && NewConfig(rules.parse, d.config, config).Replace?
      && config.idsFile != DEFAULT_IDS_FILE
      && DEFAULT_IDS_FILE in d.legacy
  }

  /** And it holds another mapping. */
  predicate Stale<Ids(==), Decls>(rules: Rules<Ids, Decls>, d: Disk<Ids>, ids: Ids) {
    FallsBack(rules, d) && d.legacy[DEFAULT_IDS_FILE].Mapping? && d.legacy[DEFAULT_IDS_FILE].ids != ids
  }

  /** The mapping is held by the project's legacy file, or without one by a whole tree. */
  ghost predicate Held<Ids, Decls>(rules: Rules<Ids, Decls>, d: Disk<Ids>, ids: Ids) {
    && rules.parse(d.config).Some?
    && var config := rules.parse(d.config).value;
    if config.idsFile in d.legacy then d.legacy[config.idsFile] == Mapping(ids)
    else rules.assemble(Files(d.dir)) == Some(ids)
  }

  /** Some file of the project is damaged, and the tree has what it had. */
  ghost predicate BesideDamaged<Ids, Decls>(rules: Rules<Ids, Decls>, d: Disk<Ids>, ids: Ids) {
    && rules.parse(d.config).Some?
    && var config := rules.parse(d.config).value;
      && config.idsFile in d.legacy && d.legacy[config.idsFile].Damaged?
      && rules.assemble(Files(d.dir)) == Some(ids)
  }

  lemma {:induction false} MapOfLookup(files: seq<(Path, Text)>, path: Path)
    requires DistinctPaths(files)
    ensures path in MapOf(files) <==> exists i :: 0 <= i < |files| && files[i].0 == path
    ensures forall i :: 0 <= i < |files| ==> files[i].0 in MapOf(files) && MapOf(files)[files[i].0] == files[i].1
  {
    if files != [] {
      MapOfLookup(files[1..], path);
      assert files[0].0 in MapOf(files);
      if path in MapOf(files[1..]) {
        var i :| 0 <= i < |files[1..]| && files[1..][i].0 == path;
        assert files[i + 1].0 == path;
      }
      forall i | 0 < i < |files| ensures files[i].0 in MapOf(files) && MapOf(files)[files[i].0] == files[i].1 {
        assert files[1..][i - 1] == files[i];
      }
    }
  }

  /** Writing the files `tree` lacks onto a directory that holds the rest gives all of them. */
  lemma {:induction false} FileWritesComplete<Ids>(d: Disk<Ids>, files: seq<(Path, Text)>, tree: map<Path, Text>)
    requires DistinctPaths(files)
    requires forall i :: 0 <= i < |files| && files[i].0 in tree && tree[files[i].0] == files[i].1 ==>
      files[i].0 in Files(d.dir) && Files(d.dir)[files[i].0] == files[i].1
    ensures var d' := ApplyAll(d, FileWrites(files, tree));
      && d'.legacy == d.legacy && d'.config == d.config
      && Files(d'.dir) == Files(d.dir) + MapOf(files)
      && Strays(d'.dir) <= Strays(d.dir)
    decreases |files|
  {
    if files != [] {
      var d1 := ApplyAll(d, OneWrite(files[0], tree));
      OneWriteDone(d, files[0], tree);
      StatesConcat(d, OneWrite(files[0], tree), FileWrites(files[1..], tree));
      FileWritesComplete(d1, files[1..], tree);
      MapOfLookup(files, files[0].0);
      MapOfLookup(files[1..], files[0].0);
      assert Files(d1.dir) + MapOf(files[1..]) == Files(d.dir) + MapOf(files);
    }
  }

  lemma OneWriteDone<Ids>(d: Disk<Ids>, file: (Path, Text), tree: map<Path, Text>)
    requires file.0 in tree && tree[file.0] == file.1 ==> file.0 in Files(d.dir) && Files(d.dir)[file.0] == file.1
    ensures var d' := ApplyAll(d, OneWrite(file, tree));
      && d'.legacy == d.legacy && d'.config == d.config
      && Files(d'.dir) == Files(d.dir)[file.0 := file.1] && Strays(d'.dir) <= Strays(d.dir)
  {
    if OneWrite(file, tree) != [] {
      StatesOfThree(d, MakeDirs(file.0), WriteTemp(file.0), Publish(file.0, file.1));
    } else {
      assert Files(d.dir)[file.0 := file.1] == Files(d.dir);
    }
  }

  /** The tree writes touch neither the legacy file nor the config. */
  lemma {:induction false} TreeWritesOnly<Ids>(d: Disk<Ids>, ws: seq<Write>)
    requires forall i :: 0 <= i < |ws| ==> ws[i].MakeDirs? || ws[i].WriteTemp? || ws[i].Publish?
    ensures ApplyAll(d, ws).legacy == d.legacy && ApplyAll(d, ws).config == d.config
    decreases |ws|
  {
    if ws != [] { TreeWritesOnly(Apply(d, ws[0]), ws[1..]); }
  }

  lemma {:induction false} FileWritesKind(files: seq<(Path, Text)>, tree: map<Path, Text>, i: nat)
    requires i < |FileWrites(files, tree)|
    ensures var w := FileWrites(files, tree)[i]; w.MakeDirs? || w.WriteTemp? || w.Publish?
    decreases |files|
  {
    var head := OneWrite(files[0], tree);
    if i >= |head| { FileWritesKind(files[1..], tree, i - |head|); }
  }

  lemma Converted<Ids>(d: Disk<Ids>, files: seq<(Path, Text)>, tree: map<Path, Text>)
    requires ReadTree(d.dir) == Some(tree) && DistinctPaths(files) && Within(tree, MapOf(files))
    ensures var d' := ApplyAll(d, FileWrites(files, tree));
      && Files(d'.dir) == MapOf(files) && Strays(d'.dir) == {} && d'.legacy == d.legacy && d'.config == d.config
  {
    FileWritesComplete(d, files, tree);
    assert Files(d.dir) + MapOf(files) == MapOf(files);
  }

  /** Where an uninterrupted conversion ends, and the state one write earlier. */
  lemma WholeScript<Ids>(d: Disk<Ids>, files: seq<(Path, Text)>, tree: map<Path, Text>, idsFile: Path, edit: Edit)
    requires ReadTree(d.dir) == Some(tree) && DistinctPaths(files) && Within(tree, MapOf(files))
    ensures var dir := ApplyAll(d, FileWrites(files, tree)).dir;
      && Files(dir) == MapOf(files) && Strays(dir) == {}
      && ApplyAll(d, FileWrites(files, tree) + [RemoveLegacy(idsFile)]) == Disk(dir, d.legacy - {idsFile}, d.config)
      && ApplyAll(d, FileWrites(files, tree) + [RemoveLegacy(idsFile)] + ConfigWrites(edit))
         == Disk(dir, d.legacy - {idsFile}, if edit.Replace? then edit.lines else d.config)
  {
    var first, remove := FileWrites(files, tree), [RemoveLegacy(idsFile)];
    Converted(d, files, tree);
    StatesConcat(d, first, remove);
    StatesConcat(d, first + remove, ConfigWrites(edit));
  }

  /** A write of the conversion to `files` is one of the tree's. */
  ghost predicate WritesInto(files: map<Path, Text>, w: Write) {
    || w.MakeDirs?
    || w.WriteTemp?
    || (w.Publish? && w.path in files && files[w.path] == w.text)
  }

  lemma {:induction false} FileWritesInto(files: seq<(Path, Text)>, all: map<Path, Text>, tree: map<Path, Text>, i: nat)
    requires i < |FileWrites(files, tree)|
    requires forall k :: 0 <= k < |files| ==> files[k].0 in all && all[files[k].0] == files[k].1
    ensures WritesInto(all, FileWrites(files, tree)[i])
    decreases |files|
  {
    var head := OneWrite(files[0], tree);
    if i >= |head| { FileWritesInto(files[1..], all, tree, i - |head|); }
  }

  /** The tree only grows, file by file, within the one being written. */
  lemma {:induction false} TreeGrows<Ids>(d: Disk<Ids>, ws: seq<Write>, files: map<Path, Text>)
    requires forall i :: 0 <= i < |ws| ==> WritesInto(files, ws[i])
    requires Within(Files(d.dir), files)
    ensures var d' := ApplyAll(d, ws);
      && d'.legacy == d.legacy && d'.config == d.config
      && Within(Files(d.dir), Files(d'.dir)) && Within(Files(d'.dir), files)
    decreases |ws|
  {
    if ws != [] {
      assert WritesInto(files, ws[0]);
      TreeGrows(Apply(d, ws[0]), ws[1..], files);
    }
  }

  /** What the legacy file in use becomes. */
  function Placed<Ids(==), Decls>(rules: Rules<Ids, Decls>, d: Disk<Ids>, decls: Decls): map<Path, Text>
    requires Attempt(rules, d, decls).1.Migrated?
  {
    MapOf(rules.place(d.legacy[rules.parse(d.config).value.idsFile].ids, decls).value)
  }

  /** Killed while it wrote the tree. */
  ghost predicate Growing<Ids, Decls>(rules: Rules<Ids, Decls>, d: Disk<Ids>, decls: Decls, d': Disk<Ids>) {
    && Attempt(rules, d, decls).1.Migrated?
    && d'.legacy == d.legacy && d'.config == d.config
    && Within(Files(d.dir), Files(d'.dir)) && Within(Files(d'.dir), Placed(rules, d, decls))
  }

  /** Killed, or not, once the legacy file was gone. */
  ghost predicate Removed<Ids, Decls>(rules: Rules<Ids, Decls>, d: Disk<Ids>, decls: Decls, d': Disk<Ids>) {
    && Attempt(rules, d, decls).1.Migrated?
    && var config := rules.parse(d.config).value;
      var edit := NewConfig(rules.parse, d.config, config);
      && Files(d'.dir) == Placed(rules, d, decls) && Strays(d'.dir) == {} && !d'.dir.NotADirectory?
      && d'.legacy == d.legacy - {config.idsFile}
      && (d'.config == d.config || (edit.Replace? && d'.config == edit.lines))
  }

  /** Only the config was left to edit. */
  ghost predicate Edited<Ids, Decls>(rules: Rules<Ids, Decls>, d: Disk<Ids>, decls: Decls, d': Disk<Ids>) {
    && Attempt(rules, d, decls).1.Finished?
    && var edit := NewConfig(rules.parse, d.config, rules.parse(d.config).value);
      edit.Replace? && d' == d.(config := edit.lines)
  }

  /** All that one killed run can do. */
  lemma CrashCases<Ids(!new), Decls(!new)>(rules: Rules<Ids, Decls>, d: Disk<Ids>, t: Try<Decls>)
    requires Sound(rules)
    ensures var d' := CrashOnce(rules, d, t);
      d' == d || Growing(rules, d, t.decls, d') || Removed(rules, d, t.decls, d') || Edited(rules, d, t.decls, d')
  {
    var (writes, outcome) := Attempt(rules, d, t.decls);
    var k := if t.survived < |writes| then t.survived else |writes|;
    if outcome.Migrated? {
      ConvertCases(rules, d, t.decls, k);
    } else if outcome.Finished? && k > 0 {
      assert writes[..k] == writes;
      StatesConcat(d, writes, []);
    } else {
      assert writes[..k] == [];
    }
  }

  lemma ConvertCases<Ids(!new), Decls(!new)>(rules: Rules<Ids, Decls>, d: Disk<Ids>, decls: Decls, k: nat)
    requires Sound(rules) && Attempt(rules, d, decls).1.Migrated? && k <= |Attempt(rules, d, decls).0|
    ensures var d' := ApplyAll(d, Attempt(rules, d, decls).0[..k]);
      Growing(rules, d, decls, d') || Removed(rules, d, decls, d')
    ensures k == |Attempt(rules, d, decls).0| ==>
      var edit := NewConfig(rules.parse, d.config, rules.parse(d.config).value);
      var d' := ApplyAll(d, Attempt(rules, d, decls).0);
      Removed(rules, d, decls, d') && d'.config == if edit.Replace? then edit.lines else d.config
  {
    var config := rules.parse(d.config).value;
    var files := rules.place(d.legacy[config.idsFile].ids, decls).value;
    var tree := ReadTree(d.dir).value;
    var edit := NewConfig(rules.parse, d.config, config);
    var first, writes := FileWrites(files, tree), Attempt(rules, d, decls).0;
    WholeScript(d, files, tree, config.idsFile, edit);
    assert writes[..|writes|] == writes;
    if k <= |first| {
      assert writes[..k] == first[..k];
      GrowingPrefix(d, files, tree, k);
    } else {
      assert writes[..k] == if k == |first| + 1 then first + [RemoveLegacy(config.idsFile)] else writes;
    }
    StillDirectory(d, writes[..k]);
    StillDirectory(d, writes);
  }

  lemma GrowingPrefix<Ids>(d: Disk<Ids>, files: seq<(Path, Text)>, tree: map<Path, Text>, k: nat)
    requires DistinctPaths(files) && Files(d.dir) == tree && Within(tree, MapOf(files))
    requires k <= |FileWrites(files, tree)|
    ensures var d' := ApplyAll(d, FileWrites(files, tree)[..k]);
      && d'.legacy == d.legacy && d'.config == d.config
      && Within(tree, Files(d'.dir)) && Within(Files(d'.dir), MapOf(files))
  {
    var first := FileWrites(files, tree);
    forall i | 0 <= i < |files| ensures files[i].0 in MapOf(files) && MapOf(files)[files[i].0] == files[i].1 {
      MapOfLookup(files, files[i].0);
    }
    forall i | 0 <= i < k ensures WritesInto(MapOf(files), first[..k][i]) {
      FileWritesInto(files, MapOf(files), tree, i);
    }
    TreeGrows(d, first[..k], MapOf(files));
  }

  lemma {:induction false} StillDirectory<Ids>(d: Disk<Ids>, ws: seq<Write>)
    requires !d.dir.NotADirectory?
    ensures !ApplyAll(d, ws).dir.NotADirectory?
    decreases |ws|
  {
    if ws != [] { StillDirectory(Apply(d, ws[0]), ws[1..]); }
  }

  // ------------------------------------------- every mapping, whatever happens

  /** A whole tree of the mapping is there, byte for byte, perhaps among more files. */
  ghost predicate TreeHolds<Ids, Decls>(rules: Rules<Ids, Decls>, d: Disk<Ids>, ids: Ids) {
    exists tree :: rules.assemble(tree) == Some(ids) && Within(tree, Files(d.dir))
  }

  ghost predicate Kept<Ids, Decls>(rules: Rules<Ids, Decls>, d: Disk<Ids>, path: Path, ids: Ids) {
    (path in d.legacy && d.legacy[path] == Mapping(ids)) || TreeHolds(rules, d, ids)
  }

  lemma CrashOnceKeeps<Ids(!new), Decls(!new)>(rules: Rules<Ids, Decls>, d: Disk<Ids>, t: Try<Decls>, path: Path,
                                               ids: Ids)
    requires Sound(rules) && Kept(rules, d, path, ids)
    ensures Kept(rules, CrashOnce(rules, d, t), path, ids)
  {
    CrashCases(rules, d, t);
    var d' := CrashOnce(rules, d, t);
    if TreeHolds(rules, d, ids) {
      var tree :| rules.assemble(tree) == Some(ids) && Within(tree, Files(d.dir));
      if Removed(rules, d, t.decls, d') {
        assert Within(Files(d.dir), Placed(rules, d, t.decls));
      }
      assert Within(tree, Files(d'.dir));
    } else if Removed(rules, d, t.decls, d') && path == rules.parse(d.config).value.idsFile {
      assert rules.assemble(Placed(rules, d, t.decls)) == Some(ids);
      assert Within(Placed(rules, d, t.decls), Files(d'.dir));
    }
  }

  /**
  However often the command is killed, and however the declarations change
  between runs, no mapping of any legacy file is lost: the file is there, or
  every file of a tree that assembles to it.
  */
  lemma {:induction false} MigrationNeverLoses<Ids(!new), Decls(!new)>(rules: Rules<Ids, Decls>, d: Disk<Ids>,
                                                                       tries: seq<Try<Decls>>, path: Path, ids: Ids)
    requires Sound(rules) && Kept(rules, d, path, ids)
    ensures Kept(rules, Crash(rules, d, tries), path, ids)
    decreases |tries|
  {
    if tries != [] {
      CrashOnceKeeps(rules, d, tries[0], path, ids);
      MigrationNeverLoses(rules, CrashOnce(rules, d, tries[0]), tries[1..], path, ids);
    }
  }

  // ------------------------------------------------- the mapping in use, exactly

  /** What no killed run changes unless a stale file waits. */
  ghost predicate Safe<Ids, Decls>(rules: Rules<Ids, Decls>, d: Disk<Ids>, ids: Ids) {
    (Held(rules, d, ids) || BesideDamaged(rules, d, ids)) && !Stale(rules, d, ids)
  }

  /** One killed run keeps the mapping in use, wherever it was held. */
  lemma CrashOnceHolds<Ids(!new), Decls(!new)>(rules: Rules<Ids, Decls>, d: Disk<Ids>, t: Try<Decls>, ids: Ids)
    requires Sound(rules) && Safe(rules, d, ids)
    ensures Safe(rules, CrashOnce(rules, d, t), ids)
  {
    CrashCases(rules, d, t);
  }

  lemma {:induction false} CrashesHold<Ids(!new), Decls(!new)>(rules: Rules<Ids, Decls>, d: Disk<Ids>,
                                                               tries: seq<Try<Decls>>, ids: Ids)
    requires Sound(rules) && Safe(rules, d, ids)
    ensures Safe(rules, Crash(rules, d, tries), ids)
    decreases |tries|
  {
    if tries != [] {
      CrashOnceHolds(rules, d, tries[0], ids);
      CrashesHold(rules, CrashOnce(rules, d, tries[0]), tries[1..], ids);
    }
  }

  /** Some declarations let the command get as far as editing the config. */
  ghost predicate CanEdit<Ids(!new), Decls(!new)>(rules: Rules<Ids, Decls>, d: Disk<Ids>) {
    exists decls :: Completes(rules, d, decls)
  }

  predicate Completes<Ids(==), Decls>(rules: Rules<Ids, Decls>, d: Disk<Ids>, decls: Decls) {
    Attempt(rules, d, decls).1.Migrated? || Attempt(rules, d, decls).1.Finished?
  }

  function Final<Ids(==), Decls>(rules: Rules<Ids, Decls>, d: Disk<Ids>, decls: Decls): Disk<Ids> {
    ApplyAll(d, Attempt(rules, d, decls).0)
  }

  lemma {:induction false} StaysPut<Ids(!new), Decls(!new)>(rules: Rules<Ids, Decls>, d: Disk<Ids>,
                                                            tries: seq<Try<Decls>>)
    requires !CanEdit(rules, d)
    ensures Crash(rules, d, tries) == d
    decreases |tries|
  {
    if tries != [] {
      assert !Completes(rules, d, tries[0].decls);
      assert CrashOnce(rules, d, tries[0]) == d;
      StaysPut(rules, d, tries[1..]);
    }
  }

  /** Where a run completes over a file to fall back to, the next config names it. */
  lemma CompletedFallsBack<Ids(!new), Decls(!new)>(rules: Rules<Ids, Decls>, d: Disk<Ids>, decls: Decls)
    requires Sound(rules) && FallsBack(rules, d) && Completes(rules, d, decls)
    ensures var d' := Final(rules, d, decls);
      && rules.parse(d'.config).Some? && rules.parse(d'.config).value.idsFile == DEFAULT_IDS_FILE
      && d'.legacy == d.legacy - {rules.parse(d.config).value.idsFile}
      && (Removed(rules, d, decls, d') || Edited(rules, d, decls, d'))
  {
    if Attempt(rules, d, decls).1.Migrated? {
      ConvertCases(rules, d, decls, |Attempt(rules, d, decls).0|);
    } else {
      StatesConcat(d, Attempt(rules, d, decls).0, []);
    }
  }

  lemma OneTry<Ids(!new), Decls(!new)>(rules: Rules<Ids, Decls>, d: Disk<Ids>, decls: Decls)
    ensures Crash(rules, d, [Try(decls, |Attempt(rules, d, decls).0|)]) == Final(rules, d, decls)
  {
    var t := Try(decls, |Attempt(rules, d, decls).0|);
    assert Attempt(rules, d, decls).0[..|Attempt(rules, d, decls).0|] == Attempt(rules, d, decls).0;
    assert [t][1..] == [];
  }

  ghost predicate ReadsRight<Ids(!new), Decls(!new)>(rules: Rules<Ids, Decls>, d: Disk<Ids>, ids: Ids) {
    Read(rules, d) == Found(ids) || Read(rules, d).Refused?
  }

  lemma SafeReadsRight<Ids(!new), Decls(!new)>(rules: Rules<Ids, Decls>, d: Disk<Ids>, ids: Ids)
    requires Held(rules, d, ids) || BesideDamaged(rules, d, ids)
    requires rules.assemble(map[]) != Some(ids)
    ensures ReadsRight(rules, d, ids)
  {
  }

  /**
  Over every sequence of killed runs, and of declarations edited between them,
  a guarded reader finds the mapping or refuses, exactly unless a stale file
  waits at the default path and the command can get past every check.
  */
  lemma GuardedReaderIsSafe<Ids(!new), Decls(!new)>(rules: Rules<Ids, Decls>, d: Disk<Ids>, ids: Ids)
    requires Sound(rules) && Held(rules, d, ids)
    requires rules.assemble(map[]) != Some(ids)
    ensures ((forall tries :: ReadsRight(rules, Crash(rules, d, tries), ids))
             <==> !(Stale(rules, d, ids) && CanEdit(rules, d)))
  {
    if Stale(rules, d, ids) && CanEdit(rules, d) {
      var decls :| Completes(rules, d, decls);
      OneTry(rules, d, decls);
      CompletedFallsBack(rules, d, decls);
      var tries := [Try(decls, |Attempt(rules, d, decls).0|)];
      assert Read(rules, Crash(rules, d, tries)) == Found(d.legacy[DEFAULT_IDS_FILE].ids);
      assert !ReadsRight(rules, Crash(rules, d, tries), ids);
    } else {
      forall tries ensures ReadsRight(rules, Crash(rules, d, tries), ids) {
        if Stale(rules, d, ids) {
          StaysPut(rules, d, tries);
        } else {
          CrashesHold(rules, d, tries, ids);
        }
        SafeReadsRight(rules, Crash(rules, d, tries), ids);
      }
    }
  }

  // ------------------------------------------ legacy file or assembling tree

  /** The mapping is in the original file, in the default one, or what the tree assembles to. */
  ghost predicate Intact<Ids, Decls>(rules: Rules<Ids, Decls>, d: Disk<Ids>, path: Path, ids: Ids) {
    || (path in d.legacy && d.legacy[path] == Mapping(ids))
    || (DEFAULT_IDS_FILE in d.legacy && d.legacy[DEFAULT_IDS_FILE] == Mapping(ids))
    || rules.assemble(Files(d.dir)) == Some(ids)
  }

  function InUse<Ids, Decls>(rules: Rules<Ids, Decls>, d: Disk<Ids>): Path
    requires rules.parse(d.config).Some?
  {
    rules.parse(d.config).value.idsFile
  }

  /** A second run, after one that completes, converts the stale file over the tree of the first. */
  ghost predicate Overruns<Ids(!new), Decls(!new)>(rules: Rules<Ids, Decls>, d: Disk<Ids>, ids: Ids) {
    && Stale(rules, d, ids)
    && exists decls, next :: Completes(rules, d, decls) && Attempt(rules, Final(rules, d, decls), next).1.Migrated?
  }

  /** The config names the original file or the default one. */
  lemma {:induction false} NamesOneOfTwo<Ids(!new), Decls(!new)>(rules: Rules<Ids, Decls>, d: Disk<Ids>,
                                                                 tries: seq<Try<Decls>>, path: Path)
    requires Sound(rules) && rules.parse(d.config).Some? && InUse(rules, d) in {path, DEFAULT_IDS_FILE}
    ensures var e := Crash(rules, d, tries);
      rules.parse(e.config).Some? && InUse(rules, e) in {path, DEFAULT_IDS_FILE}
    decreases |tries|
  {
    if tries != [] {
      CrashCases(rules, d, tries[0]);
      NamesOneOfTwo(rules, CrashOnce(rules, d, tries[0]), tries[1..], path);
    }
  }

  /** Before the legacy file goes, the tree only grew. */
  ghost predicate Before<Ids, Decls>(rules: Rules<Ids, Decls>, d: Disk<Ids>, e: Disk<Ids>) {
    && e.legacy == d.legacy && e.config == d.config
    && rules.parse(d.config).Some? && InUse(rules, d) in d.legacy
    && ReadTree(d.dir).Some? && !e.dir.NotADirectory? && Within(Files(d.dir), Files(e.dir))
  }

  /** Where a completed run ends, save perhaps for the config still to edit. */
  ghost predicate Landed<Ids>(d: Disk<Ids>, e: Disk<Ids>, final: Disk<Ids>) {
    && e.legacy == final.legacy && Files(e.dir) == Files(final.dir)
    && ReadTree(e.dir).Some? && ReadTree(final.dir).Some?
    && (e.config == d.config || e.config == final.config)
  }

  ghost predicate LandedBy<Ids, Decls>(rules: Rules<Ids, Decls>, d: Disk<Ids>, e: Disk<Ids>, decls: Decls) {
    Completes(rules, d, decls) && Landed(d, e, Final(rules, d, decls))
  }

  ghost predicate Trail<Ids(!new), Decls(!new)>(rules: Rules<Ids, Decls>, d: Disk<Ids>, e: Disk<Ids>) {
    e == d || Before(rules, d, e) || exists decls :: LandedBy(rules, d, e, decls)
  }

  /** A run from a grown tree removes and writes what the same run would have from the start. */
  lemma LandsAlike<Ids(!new), Decls(!new)>(rules: Rules<Ids, Decls>, d: Disk<Ids>, e: Disk<Ids>, decls: Decls,
                                           e': Disk<Ids>)
    requires Sound(rules) && (e == d || Before(rules, d, e)) && FallsBack(rules, d) && Removed(rules, e, decls, e')
    ensures LandedBy(rules, d, e', decls)
  {
    assert Within(Files(d.dir), Placed(rules, e, decls));
    assert Attempt(rules, d, decls).1.Migrated?;
    assert Placed(rules, d, decls) == Placed(rules, e, decls);
    CompletedFallsBack(rules, d, decls);
    ConvertCases(rules, d, decls, |Attempt(rules, d, decls).0|);
  }

  lemma TrailStep<Ids(!new), Decls(!new)>(rules: Rules<Ids, Decls>, d: Disk<Ids>, e: Disk<Ids>, t: Try<Decls>, ids: Ids)
    requires Sound(rules) && Stale(rules, d, ids) && !Overruns(rules, d, ids) && Trail(rules, d, e)
    ensures Trail(rules, d, CrashOnce(rules, e, t))
  {
    var e' := CrashOnce(rules, e, t);
    CrashCases(rules, e, t);
    if e == d || Before(rules, d, e) {
      if Growing(rules, e, t.decls, e') {
        GrowingDirectory(rules, e, t);
        assert Before(rules, d, e');
      } else if Removed(rules, e, t.decls, e') {
        LandsAlike(rules, d, e, t.decls, e');
      } else if Edited(rules, e, t.decls, e') {
        assert e == d;
        CompletedFallsBack(rules, d, t.decls);
        StatesConcat(d, Attempt(rules, d, t.decls).0, []);
        assert LandedBy(rules, d, e', t.decls);
      }
    } else {
      var decls :| LandedBy(rules, d, e, decls);
      LandedStep(rules, d, e, t, ids, decls);
    }
  }

  lemma GrowingDirectory<Ids, Decls>(rules: Rules<Ids, Decls>, e: Disk<Ids>, t: Try<Decls>)
    requires Attempt(rules, e, t.decls).1.Migrated?
    ensures ReadTree(e.dir).Some? && !CrashOnce(rules, e, t).dir.NotADirectory?
  {
    var writes := Attempt(rules, e, t.decls).0;
    StillDirectory(e, writes[..if t.survived < |writes| then t.survived else |writes|]);
  }

  /** Once landed, a run can only edit the config: the stale file's own conversion never passes. */
  lemma LandedStep<Ids(!new), Decls(!new)>(rules: Rules<Ids, Decls>, d: Disk<Ids>, e: Disk<Ids>, t: Try<Decls>,
                                           ids: Ids,
                                           decls: Decls)
    requires Sound(rules) && Stale(rules, d, ids) && !Overruns(rules, d, ids) && LandedBy(rules, d, e, decls)
    ensures LandedBy(rules, d, CrashOnce(rules, e, t), decls)
  {
    var final, e' := Final(rules, d, decls), CrashOnce(rules, e, t);
    CrashCases(rules, e, t);
    CompletedFallsBack(rules, d, decls);
    if e.config == final.config {
      assert Attempt(rules, e, t.decls) == Attempt(rules, final, t.decls);
      assert !Attempt(rules, final, t.decls).1.Migrated?;
      assert e' == e;
    }
  }

  lemma TrailIntact<Ids(!new), Decls(!new)>(rules: Rules<Ids, Decls>, d: Disk<Ids>, e: Disk<Ids>, ids: Ids)
    requires Sound(rules) && Held(rules, d, ids) && FallsBack(rules, d) && Trail(rules, d, e)
    ensures Intact(rules, e, InUse(rules, d), ids)
  {
    if e != d && !Before(rules, d, e) {
      var decls :| LandedBy(rules, d, e, decls);
      CompletedFallsBack(rules, d, decls);
    }
  }

  lemma {:induction false} TrailHolds<Ids(!new), Decls(!new)>(rules: Rules<Ids, Decls>, d: Disk<Ids>, e: Disk<Ids>,
                                                              tries: seq<Try<Decls>>, ids: Ids)
    requires Sound(rules) && Stale(rules, d, ids) && !Overruns(rules, d, ids) && Trail(rules, d, e)
    ensures Trail(rules, d, Crash(rules, e, tries))
    decreases |tries|
  {
    if tries != [] {
      TrailStep(rules, d, e, tries[0], ids);
      TrailHolds(rules, d, CrashOnce(rules, e, tries[0]), tries[1..], ids);
    }
  }

  lemma OverrunLoses<Ids(!new), Decls(!new)>(rules: Rules<Ids, Decls>, d: Disk<Ids>, ids: Ids, decls: Decls,
                                             next: Decls)
    requires Sound(rules) && Held(rules, d, ids) && Stale(rules, d, ids)
    requires Completes(rules, d, decls) && Attempt(rules, Final(rules, d, decls), next).1.Migrated?
    ensures exists tries :: !Intact(rules, Crash(rules, d, tries), InUse(rules, d), ids)
  {
    var d1 := Final(rules, d, decls);
    var first := Try(decls, |Attempt(rules, d, decls).0|);
    var second := Try(next, |Attempt(rules, d1, next).0|);
    OneTry(rules, d, decls);
    OneTry(rules, d1, next);
    CompletedFallsBack(rules, d, decls);
    ConvertCases(rules, d1, next, |Attempt(rules, d1, next).0|);
    assert [first, second][1..] == [second];
    assert Attempt(rules, d, decls).0[..|Attempt(rules, d, decls).0|] == Attempt(rules, d, decls).0;
    assert Crash(rules, d, [first, second]) == Final(rules, d1, next);
    assert !Intact(rules, Crash(rules, d, [first, second]), InUse(rules, d), ids);
  }

  /**
  Over every sequence of killed runs and edited declarations, the original
  file is intact or the tree assembles to its mapping, exactly unless two runs
  can complete, the second over a stale file at the default path.
  */
  lemma MappingStaysExactly<Ids(!new), Decls(!new)>(rules: Rules<Ids, Decls>, d: Disk<Ids>, ids: Ids)
    requires Sound(rules) && Held(rules, d, ids)
    ensures ((forall tries :: Intact(rules, Crash(rules, d, tries), InUse(rules, d), ids))
             <==> !Overruns(rules, d, ids))
  {
    if Overruns(rules, d, ids) {
      var decls, next :| Completes(rules, d, decls) && Attempt(rules, Final(rules, d, decls), next).1.Migrated?;
      OverrunLoses(rules, d, ids, decls, next);
    } else {
      forall tries ensures Intact(rules, Crash(rules, d, tries), InUse(rules, d), ids) {
        if Stale(rules, d, ids) {
          TrailHolds(rules, d, d, tries, ids);
          TrailIntact(rules, d, Crash(rules, d, tries), ids);
        } else {
          CrashesHold(rules, d, tries, ids);
          NamesOneOfTwo(rules, d, tries, InUse(rules, d));
        }
      }
    }
  }

  // --------------------------------------------------------------- convergence

  predicate AnySlash(files: seq<(Path, Text)>) {
    exists i :: 0 <= i < |files| && '/' in files[i].0
  }

  /** A file in a subdirectory means there is a subdirectory. */
  predicate Consistent(dir: IdsDir) {
    forall p :: p in Files(dir) && '/' in p ==> Nested(dir)
  }

  /** What one migration is about, fixed from its first run. */
  datatype Job<!Ids> = Job(start: Disk<Ids>, config: Config, ids: Ids, files: seq<(Path, Text)>, edit: Edit) {

    /** The one disk every interrupted migration is meant to end in. */
    function Goal(): Disk<Ids> {
      Disk(Directory(MapOf(files), {}, Nested(start.dir) || AnySlash(files)),
           start.legacy - {config.idsFile},
           if edit.Replace? then edit.lines else start.config)
    }

    ghost predicate Valid<Decls>(rules: Rules<Ids, Decls>, decls: Decls) {
      && rules.parse(start.config) == Some(config)
      && config.idsFile in start.legacy && start.legacy[config.idsFile] == Mapping(ids)
      && rules.place(ids, decls) == Some(files) && files != [] && DistinctPaths(files)
      && edit == NewConfig(rules.parse, start.config, config) && Consistent(start.dir)
      && Attempt(rules, start, decls).1.Migrated?
    }

    /** The config the migration writes falls back to a file that waits at the default path. */
    predicate FallsBack() {
      edit.Replace? && config.idsFile != DEFAULT_IDS_FILE && DEFAULT_IDS_FILE in start.legacy
    }

    /** The directory holds part of the tree and nothing else of its own. */
    ghost predicate Partial(dir: IdsDir) {
      && !dir.NotADirectory? && Consistent(dir) && Within(Files(dir), MapOf(files))
      && (Nested(start.dir) ==> Nested(dir))
      && (Nested(dir) ==> Nested(start.dir) || AnySlash(files))
    }

    ghost predicate Midway(d: Disk<Ids>) {
      d.legacy == start.legacy && d.config == start.config && Partial(d.dir)
    }

    ghost predicate Past(d: Disk<Ids>) {
      && d.legacy == Goal().legacy && d.dir == Goal().dir
      && (d.config == start.config || d.config == Goal().config)
    }
  }

  lemma {:induction false} PrefixIsPartial<Ids>(job: Job<Ids>, d: Disk<Ids>, i: nat, tree: map<Path, Text>, k: nat)
    requires DistinctPaths(job.files) && i <= |job.files| && job.Partial(d.dir)
    requires k <= |FileWrites(job.files[i..], tree)|
    ensures job.Partial(ApplyAll(d, FileWrites(job.files[i..], tree)[..k]).dir)
    decreases |job.files| - i
  {
    var writes := FileWrites(job.files[i..], tree);
    if k == 0 {
      assert writes[..k] == [];
    } else {
      var file := job.files[i];
      assert job.files[i..][0] == file && job.files[i..][1..] == job.files[i + 1..];
      var head, rest := OneWrite(file, tree), FileWrites(job.files[i + 1..], tree);
      if k <= |head| {
        assert writes[..k] == head[..k];
        HeadPartial(job, d, i, tree, k);
      } else {
        assert writes[..k] == head + rest[..k - |head|];
        StatesConcat(d, head, rest[..k - |head|]);
        HeadPartial(job, d, i, tree, |head|);
        assert head[..|head|] == head;
        PrefixIsPartial(job, ApplyAll(d, head), i + 1, tree, k - |head|);
      }
    }
  }

  lemma HeadPartial<Ids>(job: Job<Ids>, d: Disk<Ids>, i: nat, tree: map<Path, Text>, k: nat)
    requires DistinctPaths(job.files) && i < |job.files| && job.Partial(d.dir)
    requires k <= |OneWrite(job.files[i], tree)|
    ensures job.Partial(ApplyAll(d, OneWrite(job.files[i], tree)[..k]).dir)
  {
    var file := job.files[i];
    MapOfLookup(job.files, file.0);
    assert '/' in file.0 ==> AnySlash(job.files);
    if OneWrite(file, tree) == [] {
      assert OneWrite(file, tree)[..k] == [];
    } else {
      OnePartial(job, d, file, k);
    }
  }

  lemma OnePartial<Ids>(job: Job<Ids>, d: Disk<Ids>, file: (Path, Text), k: nat)
    requires job.Partial(d.dir) && k <= 3
    requires file.0 in MapOf(job.files) && MapOf(job.files)[file.0] == file.1
    requires '/' in file.0 ==> AnySlash(job.files)
    ensures job.Partial(ApplyAll(d, AtomicWrite(file.0, file.1)[..k]).dir)
  {
    var a, b, c := MakeDirs(file.0), WriteTemp(file.0), Publish(file.0, file.1);
    var w := AtomicWrite(file.0, file.1);
    var d1 := Apply(d, a);
    assert job.Partial(d1.dir);
    assert job.Partial(Apply(d1, b).dir);
    assert job.Partial(Apply(Apply(d1, b), c).dir);
    StatesOfThree(d, a, b, c);
    StatesConcat(d, [a], [b]);
    assert w[..1] == [a] && w[..2] == [a] + [b] && w[..3] == w;
    assert k == 0 ==> w[..k] == [];
  }

  /** The complete tree over a partial one is the goal's. */
  lemma CompletesDir<Ids>(job: Job<Ids>, d: Disk<Ids>)
    requires DistinctPaths(job.files) && job.files != [] && job.Partial(d.dir) && Strays(d.dir) == {}
    ensures ReadTree(d.dir) == Some(Files(d.dir))
    ensures ApplyAll(d, FileWrites(job.files, Files(d.dir))).dir == job.Goal().dir
  {
    var tree := Files(d.dir);
    var writes := FileWrites(job.files, tree);
    Converted(d, job.files, tree);
    PrefixIsPartial(job, d, 0, tree, |writes|);
    assert job.files[0..] == job.files && writes[..|writes|] == writes;
    var dir := ApplyAll(d, writes).dir;
    MapOfLookup(job.files, job.files[0].0);
    assert job.files[0].0 in Files(dir);
    assert dir.Directory?;
    if AnySlash(job.files) {
      var i :| 0 <= i < |job.files| && '/' in job.files[i].0;
      MapOfLookup(job.files, job.files[i].0);
      assert job.files[i].0 in Files(dir);
    }
  }

  /** A run that starts midway with no stray file is the same conversion, from where the last one stopped. */
  lemma MidwayRun<Ids, Decls>(rules: Rules<Ids, Decls>, decls: Decls, job: Job<Ids>, d: Disk<Ids>, k: nat)
    requires job.Valid(rules, decls) && job.Midway(d) && Strays(d.dir) == {}
    ensures Attempt(rules, d, decls).1.Migrated?
    ensures ApplyAll(d, Attempt(rules, d, decls).0) == job.Goal()
    ensures k <= |Attempt(rules, d, decls).0| ==>
      var d' := ApplyAll(d, Attempt(rules, d, decls).0[..k]); job.Midway(d') || job.Past(d')
  {
    var first := FileWrites(job.files, Files(d.dir));
    var remove := [RemoveLegacy(job.config.idsFile)];
    var writes := MidwayScript(rules, decls, job, d);
    CompletesDir(job, d);
    WholeScript(d, job.files, Files(d.dir), job.config.idsFile, job.edit);
    if k <= |first| {
      assert writes[..k] == first[..k];
      MidwayPrefix(job, d, k);
    } else if k <= |writes| {
      assert writes[..k] == if k == |first| + 1 then first + remove else writes;
    }
  }

  lemma MidwayScript<Ids, Decls>(rules: Rules<Ids, Decls>, decls: Decls, job: Job<Ids>, d: Disk<Ids>)
      returns (writes: seq<Write>)
    requires job.Valid(rules, decls) && job.Midway(d) && Strays(d.dir) == {}
    ensures Attempt(rules, d, decls) == (writes, Migrated)
    ensures writes == FileWrites(job.files, Files(d.dir)) + [RemoveLegacy(job.config.idsFile)] + ConfigWrites(job.edit)
  {
    assert rules.assemble(MapOf(job.files)) == Some(job.ids);
    assert ReadTree(d.dir) == Some(Files(d.dir));
    writes := Attempt(rules, d, decls).0;
  }

  lemma MidwayPrefix<Ids>(job: Job<Ids>, d: Disk<Ids>, k: nat)
    requires DistinctPaths(job.files) && job.Midway(d) && k <= |FileWrites(job.files, Files(d.dir))|
    ensures job.Midway(ApplyAll(d, FileWrites(job.files, Files(d.dir))[..k]))
  {
    var first := FileWrites(job.files, Files(d.dir));
    assert job.files[0..] == job.files;
    PrefixIsPartial(job, d, 0, Files(d.dir), k);
    forall i | 0 <= i < k ensures first[i].MakeDirs? || first[i].WriteTemp? || first[i].Publish? {
      FileWritesKind(job.files, Files(d.dir), i);
    }
    TreeWritesOnly(d, first[..k]);
  }

  /** A run that starts past the deletion only has the config left to edit. */
  lemma PastRun<Ids, Decls>(rules: Rules<Ids, Decls>, decls: Decls, job: Job<Ids>, d: Disk<Ids>)
    requires job.Valid(rules, decls) && job.Past(d) && (job.FallsBack() ==> d != job.Goal())
    ensures Attempt(rules, d, decls).1.Success()
    ensures ApplyAll(d, Attempt(rules, d, decls).0) == job.Goal()
    ensures |Attempt(rules, d, decls).0| <= 1
    ensures d == job.Goal() ==> Attempt(rules, d, decls) == ([], AlreadyMigrated)
  {
    MapOfLookup(job.files, job.files[0].0);
    assert MapOf(job.files) != map[];
    if job.edit.Replace? {
      EditSettles(rules.parse, job.start.config, job.config);
      StatesConcat(d, [ReplaceConfig(job.edit.lines)], []);
    }
  }

  /** Past the goal a project that falls back has another file to convert, or a damaged one to stop at. */
  lemma FallsBackMovesOn<Ids, Decls>(rules: Rules<Ids, Decls>, decls: Decls, job: Job<Ids>)
    requires job.Valid(rules, decls) && job.FallsBack()
    requires forall ids :: rules.place(ids, decls).Some? ==> DistinctPaths(rules.place(ids, decls).value)
    ensures var (writes, outcome) := Attempt(rules, job.Goal(), decls);
      !(outcome.Success() && ApplyAll(job.Goal(), writes) == job.Goal())
  {
    var goal := job.Goal();
    var (writes, outcome) := Attempt(rules, goal, decls);
    assert rules.parse(goal.config).value.idsFile == DEFAULT_IDS_FILE && DEFAULT_IDS_FILE in goal.legacy;
    if outcome.Migrated? {
      var ids := goal.legacy[DEFAULT_IDS_FILE].ids;
      var files := rules.place(ids, decls).value;
      var edit := NewConfig(rules.parse, goal.config, rules.parse(goal.config).value);
      WholeScript(goal, files, ReadTree(goal.dir).value, DEFAULT_IDS_FILE, edit);
      assert DEFAULT_IDS_FILE !in ApplyAll(goal, writes).legacy;
    }
  }

  /** The states one job can reach before a project that falls back has reached its goal. */
  ghost predicate Reached<Ids>(job: Job<Ids>, d: Disk<Ids>) {
    || job.Midway(d)
    || (job.Past(d) && Strays(d.dir) == {} && (job.FallsBack() ==> d != job.Goal()))
  }

  lemma CrashStaysReached<Ids, Decls>(rules: Rules<Ids, Decls>, decls: Decls, job: Job<Ids>, d: Disk<Ids>,
                                      survived: nat)
    requires job.Valid(rules, decls) && Reached(job, d)
    ensures var d' := CrashOnce(rules, d, Try(decls, survived));
      Reached(job, d') || (job.FallsBack() && d' == job.Goal())
  {
    var writes := Attempt(rules, d, decls).0;
    var k := if survived < |writes| then survived else |writes|;
    if job.Midway(d) {
      if Strays(d.dir) == {} {
        MidwayRun(rules, decls, job, d, k);
      } else {
        assert writes[..k] == [];
      }
    } else {
      PastRun(rules, decls, job, d);
      assert writes[..k] == if k == 0 then [] else writes;
    }
  }

  /** `survived[i]` writes of the `i`th run reached the disk. */
  function Tries<Decls>(decls: Decls, survived: seq<nat>): seq<Try<Decls>> {
    seq(|survived|, i requires 0 <= i < |survived| => Try(decls, survived[i]))
  }

  /** A project that falls back has not reached its goal at the end of any of these runs. */
  ghost predicate GoalAhead<Ids, Decls>(rules: Rules<Ids, Decls>, decls: Decls, job: Job<Ids>, d: Disk<Ids>,
                                        survived: seq<nat>) {
    job.FallsBack() ==> forall i :: 0 <= i <= |survived| ==> Crash(rules, d, Tries(decls, survived[..i])) != job.Goal()
  }

  lemma {:induction false} CrashesStayReached<Ids, Decls>(rules: Rules<Ids, Decls>, decls: Decls, job: Job<Ids>,
                                                          d: Disk<Ids>,
                                                          survived: seq<nat>)
    requires job.Valid(rules, decls) && Reached(job, d) && GoalAhead(rules, decls, job, d, survived)
    ensures Reached(job, Crash(rules, d, Tries(decls, survived)))
    decreases |survived|
  {
    if survived != [] {
      var d1 := CrashOnce(rules, d, Try(decls, survived[0]));
      CrashStaysReached(rules, decls, job, d, survived[0]);
      forall i | 0 <= i <= |survived[1..]|
        ensures Crash(rules, d1, Tries(decls, survived[1..][..i])) == Crash(rules, d, Tries(decls, survived[..i + 1]))
      {
        assert survived[..i + 1][0] == survived[0] && survived[..i + 1][1..] == survived[1..][..i];
        assert Tries(decls, survived[..i + 1])[1..] == Tries(decls, survived[1..][..i]);
      }
      assert survived[1..][..0] == [];
      CrashesStayReached(rules, decls, job, d1, survived[1..]);
      assert Tries(decls, survived)[1..] == Tries(decls, survived[1..]);
    }
  }

  lemma StartIsMidway<Ids, Decls>(rules: Rules<Ids, Decls>, decls: Decls, job: Job<Ids>)
    requires job.Valid(rules, decls)
    ensures job.Midway(job.start)
  {
  }

  /**
  After any number of killed runs over unchanged declarations, one more run
  left alone ends in the one goal exactly when no run was killed between
  writing a temporary file and renaming it. Where one was, that leftover
  stops every later run before it writes anything. A project that falls back
  to a file at the default path gets there too, the first time.
  */
  lemma MigrationConvergesIffNoStray<Ids, Decls>(rules: Rules<Ids, Decls>, decls: Decls, job: Job<Ids>,
                                                 survived: seq<nat>)
    requires job.Valid(rules, decls) && GoalAhead(rules, decls, job, job.start, survived)
    ensures var d := Crash(rules, job.start, Tries(decls, survived));
      var (writes, outcome) := Attempt(rules, d, decls);
      && (Strays(d.dir) == {} <==> outcome.Success())
      && (Strays(d.dir) == {} <==> ApplyAll(d, writes) == job.Goal())
      && (Strays(d.dir) != {} ==> writes == [] && outcome == UnreadableTree)
  {
    StartIsMidway(rules, decls, job);
    CrashesStayReached(rules, decls, job, job.start, survived);
    var d := Crash(rules, job.start, Tries(decls, survived));
    if job.Midway(d) {
      if Strays(d.dir) == {} { MidwayRun(rules, decls, job, d, 0); }
    } else {
      PastRun(rules, decls, job, d);
    }
  }

  /** One more run from this crash state ends in the goal, unless a temporary file was left. */
  ghost predicate Converges<Ids, Decls>(rules: Rules<Ids, Decls>, decls: Decls, job: Job<Ids>, survived: seq<nat>) {
    var d := Crash(rules, job.start, Tries(decls, survived));
    var (writes, outcome) := Attempt(rules, d, decls);
    Strays(d.dir) == {} ==> outcome.Success() && ApplyAll(d, writes) == job.Goal()
  }

  /**
  The goal is where every run ends, however many there are, exactly if the
  project does not fall back to a file at the default path; the goal is then
  one a further run leaves as it is.
  */
  lemma ConvergesForGoodExactly<Ids(!new), Decls(!new)>(rules: Rules<Ids, Decls>, decls: Decls, job: Job<Ids>)
    requires job.Valid(rules, decls) && Sound(rules)
    ensures (forall survived :: Converges(rules, decls, job, survived)) <==> !job.FallsBack()
    ensures Attempt(rules, job.Goal(), decls) == ([], AlreadyMigrated) <==> !job.FallsBack()
  {
    if job.FallsBack() {
      var all := |Attempt(rules, job.start, decls).0|;
      StartIsMidway(rules, decls, job);
      OneTry(rules, job.start, decls);
      assert Tries(decls, [all]) == [Try(decls, all)];
      MigrationReachesGoal(rules, decls, job);
      FallsBackMovesOn(rules, decls, job);
      assert !Converges(rules, decls, job, [all]);
    } else {
      PastRun(rules, decls, job, job.Goal());
      forall survived ensures Converges(rules, decls, job, survived) {
        MigrationConvergesIffNoStray(rules, decls, job, survived);
      }
    }
  }

  lemma MigrationReachesGoal<Ids, Decls>(rules: Rules<Ids, Decls>, decls: Decls, job: Job<Ids>)
    requires job.Valid(rules, decls)
    ensures Final(rules, job.start, decls) == job.Goal()
  {
    StartIsMidway(rules, decls, job);
    assert ReadTree(job.start.dir).Some?;
    MidwayRun(rules, decls, job, job.start, 0);
  }

  // ------------------------------------------------------ where the code fails

  function OneFile(ids: nat, decls: nat): Option<seq<(Path, Text)>> {
    Some([("t.json", "one")])
  }

  function ReadOne(files: map<Path, Text>): Option<nat> {
    if files == map["t.json" := "one"] then Some(7) else None
  }

  function ParseOne(lines: seq<string>): Option<Config> {
    if lines == ["ids_file: old.json"] then Some(Config("old.json", None, ""))
    else if lines == ["ids_dir: .pbps/ids"] then Some(Config(DEFAULT_IDS_FILE, Some(DEFAULT_IDS_DIR), ""))
    else None
  }

  const OLD: Disk<nat> := Disk(Absent, map["old.json" := Mapping(7)], ["ids_file: old.json"])

  /** The first run would convert, beginning with a directory and a temporary file. */
  lemma OldConverts()
    ensures var (writes, outcome) := Attempt(Rules(OneFile, ReadOne, ParseOne), OLD, 0);
      |writes| >= 2 && writes[..2] == [MakeDirs("t.json")] + [WriteTemp("t.json")] && outcome.Migrated?
  {
    OldConfigEdit();
    MapOfOne();
    var a, b, c := MakeDirs("t.json"), WriteTemp("t.json"), Publish("t.json", "one");
    assert FileWrites([("t.json", "one")], map[]) == [a, b, c] + [];
  }

  /** A run killed after its second write leaves a temporary name, and no later run gets past it. */
  lemma KilledBeforeRename()
    ensures var rules := Rules(OneFile, ReadOne, ParseOne);
      var d := Crash(rules, OLD, [Try(0, 2)]);
      && Attempt(rules, OLD, 0).1.Migrated?
      && Strays(d.dir) == {"t.json"}
      && Attempt(rules, d, 0) == ([], UnreadableTree)
  {
    OldConverts();
    StatesConcat(OLD, [MakeDirs("t.json")], [WriteTemp("t.json")]);
    assert [Try(0, 2)][1..] == [];
  }

  lemma MapOfOne()
    ensures MapOf([("t.json", "one")]) == map["t.json" := "one"]
  {
    assert [("t.json", "one")][1..] == [];
  }

  lemma OldConfigEdit()
    ensures NewConfig(ParseOne, ["ids_file: old.json"], Config("old.json", None, "")) == Replace(["ids_dir: .pbps/ids"])
  {
    var line := "ids_file: old.json";
    assert line[..9] == "ids_file:";
    assert line[..8][4] == 'f';
    var lines: seq<string> := [line];
    assert lines[1..] == [];
    assert NamesKey([line], "ids_file:") by { assert [line][0] == line; }
    assert !NamesKey([line], "ids_dir:");
    assert WithoutKey([line], "ids_file:") == [];
    assert "ids_dir: " + DEFAULT_IDS_DIR == "ids_dir: .pbps/ids";
  }

  /**
  What a completed migration leaves a reader: a refusal, unless the project
  named another legacy file and one still lies at the default path, which the
  edited config falls back to and the reader then believes.
  */
  lemma ReaderAfterMigration<Ids, Decls>(rules: Rules<Ids, Decls>, d: Disk<Ids>, decls: Decls)
    requires Attempt(rules, d, decls).1.Migrated?
    requires var ids := d.legacy[rules.parse(d.config).value.idsFile].ids;
      rules.place(ids, decls).value != [] && DistinctPaths(rules.place(ids, decls).value)
    ensures var config := rules.parse(d.config).value;
      var final := ApplyAll(d, Attempt(rules, d, decls).0);
      var stale := && NewConfig(rules.parse, d.config, config).Replace?
                   && config.idsFile != DEFAULT_IDS_FILE && DEFAULT_IDS_FILE in d.legacy;
      && (stale && d.legacy[DEFAULT_IDS_FILE].Mapping? ==> Read(rules, final) == Found(d.legacy[DEFAULT_IDS_FILE].ids))
      && (Read(rules, final).Refused? <==> !(stale && d.legacy[DEFAULT_IDS_FILE].Mapping?))
  {
    var config := rules.parse(d.config).value;
    var ids := d.legacy[config.idsFile].ids;
    var files := rules.place(ids, decls).value;
    var tree := ReadTree(d.dir).value;
    var edit := NewConfig(rules.parse, d.config, config);
    WholeScript(d, files, tree, config.idsFile, edit);
    MapOfLookup(files, files[0].0);
    var final := ApplyAll(d, Attempt(rules, d, decls).0);
    assert files[0].0 in Files(final.dir);
  }

  /** A project with a mapping of its own and another at the default path. */
  const TWO: Disk<nat> := Disk(Absent, map["old.json" := Mapping(7), DEFAULT_IDS_FILE := Mapping(9)],
                               ["ids_file: old.json"])

  /** It migrates, and every other command then reads the other mapping. */
  lemma StaleDefaultBelieved()
    ensures var rules := Rules(OneFile, ReadOne, ParseOne);
      && Read(rules, TWO) == Found(7)
      && Attempt(rules, TWO, 0).1.Migrated?
      && Read(rules, Final(rules, TWO, 0)) == Found(9)
  {
    OldConfigEdit();
    MapOfOne();
    ReaderAfterMigration(Rules(OneFile, ReadOne, ParseOne), TWO, 0);
  }

  const BOTH_FILES: map<Path, Text> := map["t.json" := "one", "u.json" := "two"]

  function PlaceTwo(ids: nat, decls: nat): Option<seq<(Path, Text)>> {
    if ids == 7 then Some([("t.json", "one")]) else Some([("t.json", "one"), ("u.json", "two")])
  }

  function ReadTwo(files: map<Path, Text>): Option<nat> {
    if files == map["t.json" := "one"] then Some(7) else if files == BOTH_FILES then Some(9) else None
  }

  lemma MapOfTwo()
    ensures MapOf([("t.json", "one"), ("u.json", "two")]) == BOTH_FILES
  {
    assert [("t.json", "one"), ("u.json", "two")][1..] == [("u.json", "two")];
    assert [("u.json", "two")][1..] == [];
  }

  lemma TwoSound()
    ensures Sound(Rules(PlaceTwo, ReadTwo, ParseOne))
  {
    MapOfTwo();
    MapOfOne();
  }

  lemma NewNameKept(c: Config)
    ensures NewConfig(ParseOne, ["ids_dir: .pbps/ids"], c) == Keep
  {
    var line := "ids_dir: .pbps/ids";
    assert line[..8] == "ids_dir:" && line[4] != "ids_file:"[4];
    assert NamesKey([line], "ids_dir:") by { assert [line][0] == line; }
    assert !NamesKey([line], "ids_file:");
  }

  lemma TwoFirst()
    ensures var rules := Rules(PlaceTwo, ReadTwo, ParseOne);
      var d := Final(rules, TWO, 0);
      && Attempt(rules, TWO, 0).1.Migrated?
      && d.config == ["ids_dir: .pbps/ids"] && d.legacy == map[DEFAULT_IDS_FILE := Mapping(9)]
      && ReadTree(d.dir) == Some(map["t.json" := "one"])
  {
    var rules := Rules(PlaceTwo, ReadTwo, ParseOne);
    OldConfigEdit();
    MapOfOne();
    TwoSound();
    ConvertCases(rules, TWO, 0, |Attempt(rules, TWO, 0).0|);
  }

  lemma TwoSecond(d: Disk<nat>)
    requires d.config == ["ids_dir: .pbps/ids"] && d.legacy == map[DEFAULT_IDS_FILE := Mapping(9)]
    requires ReadTree(d.dir) == Some(map["t.json" := "one"])
    ensures Attempt(Rules(PlaceTwo, ReadTwo, ParseOne), d, 0).1.Migrated?
  {
    MapOfTwo();
    assert d.config[0][4] == 'd' && "ids_file: old.json"[4] == 'f';
    assert ParseOne(d.config) == Some(Config(DEFAULT_IDS_FILE, Some(DEFAULT_IDS_DIR), ""));
    NewNameKept(ParseOne(d.config).value);
    assert "u.json" in BOTH_FILES && ReadTwo(BOTH_FILES) == Some(9);
    assert Within(map["t.json" := "one"], BOTH_FILES);
  }

  /**
  Here the other mapping's tree extends the project's own: a second run
  converts it in place, and no file and no tree is the project's mapping.
  */
  lemma StaleDefaultOverruns()
    ensures var rules := Rules(PlaceTwo, ReadTwo, ParseOne);
      Sound(rules) && Held(rules, TWO, 7) && Overruns(rules, TWO, 7)
  {
    var rules := Rules(PlaceTwo, ReadTwo, ParseOne);
    OldConfigEdit();
    TwoSound();
    TwoFirst();
    TwoSecond(Final(rules, TWO, 0));
    assert Completes(rules, TWO, 0);
  }
}

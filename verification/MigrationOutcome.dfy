/**
How a run of the migration ends, told over the disk it found and the disk it
left: when it succeeds, what each answer means, and what becomes of pbps.yml.
*/
module MigrationOutcome {
  import opened Catalog
  import opened Migration

  // ---------- The config ----------

  /** pbps.yml names `ids_dir` and no longer `ids_file`. */
  ghost predicate SaysSo(lines: seq<string>) {
    && (forall i :: 0 <= i < |lines| ==> !StartsWith(lines[i], "ids_file:"))
    && (exists i :: 0 <= i < |lines| && StartsWith(lines[i], "ids_dir:"))
  }

  /** Every other line of the config is kept, in its place. */
  lemma {:induction false} KeepsLines(before: seq<string>, line: string, after: seq<string>, key: string)
    ensures (WithoutKey(before + [line] + after, key)
             == WithoutKey(before, key) + (if StartsWith(line, key) then [] else [line]) + WithoutKey(after, key))
  {
    if before == [] {
      assert [] + [line] + after == [line] + after;
      assert ([line] + after)[1..] == after;
    } else {
      assert (before + [line] + after)[1..] == before[1..] + [line] + after;
      KeepsLines(before[1..], line, after, key);
    }
  }

  /** What the config the edit writes must read back as. */
  ghost predicate ReadsBack(parse: seq<string> -> Option<Config>, lines: seq<string>, c: Config) {
    var dir := if c.idsDir.None? then ".pbps/ids" else c.idsDir.value;
    parse(lines) == Some(Config("schema.ids.json", Some(dir), c.rest))
  }

  /** The config the migration would write, whether or not it reads back. */
  function Drafted(lines: seq<string>, c: Config): seq<string> {
    WithoutKey(lines, "ids_file:")
    + if NamesKey(lines, "ids_dir:") then [] else ["ids_dir: " + IdsDirOf(c)]
  }

  /** It is left alone if it says so already, and else edited if the edit reads back. */
  lemma EditExactly(parse: seq<string> -> Option<Config>, lines: seq<string>, c: Config)
    ensures NewConfig(parse, lines, c).Keep? <==> SaysSo(lines)
    ensures NewConfig(parse, lines, c).Replace? <==> !SaysSo(lines) && ReadsBack(parse, Drafted(lines, c), c)
    ensures NewConfig(parse, lines, c).Replace? ==> NewConfig(parse, lines, c).lines == Drafted(lines, c)
    ensures NewConfig(parse, lines, c).Replace? ==> SaysSo(Drafted(lines, c))
  {
    var kept := WithoutKey(lines, "ids_file:");
    assert kept + [] == kept;
    if NewConfig(parse, lines, c).Replace? {
      EditSettles(parse, lines, c);
    }
  }

  // ---------- Success ----------

  /** The legacy file in use when the run began. */
  ghost predicate InPlace<Ids, Decls>(rules: Rules<Ids, Decls>, d: Disk<Ids>) {
    rules.parse(d.config).Some? && rules.parse(d.config).value.idsFile in d.legacy
  }

  /** The identity directory can be read: it is absent, or holds nothing but identity files. */
  ghost predicate TreeReads(dir: IdsDir) {
    dir.Absent? || (dir.Directory? && dir.strays == {})
  }

  /** The mapping to migrate goes into no file at all: it is empty. */
  ghost predicate PlacedNowhere<Ids, Decls>(rules: Rules<Ids, Decls>, d: Disk<Ids>, decls: Decls) {
    && InPlace(rules, d) && d.legacy[rules.parse(d.config).value.idsFile].Mapping?
    && rules.place(d.legacy[rules.parse(d.config).value.idsFile].ids, decls) == Some([])
  }

  /**
  What success means: the legacy file is gone, the identities, if there are
  any, are in a tree that reads, and pbps.yml says so and still reads.
  */
  ghost predicate Settles<Ids, Decls>(rules: Rules<Ids, Decls>, d: Disk<Ids>, decls: Decls, d': Disk<Ids>) {
    && rules.parse(d.config).Some?
    && rules.parse(d.config).value.idsFile !in d'.legacy
    && TreeReads(d'.dir)
    && ((d'.dir.Directory? && d'.dir.files != map[]) || PlacedNowhere(rules, d, decls))
    && SaysSo(d'.config)
    && (d'.config == d.config || ReadsBack(rules.parse, d'.config, rules.parse(d.config).value))
  }

  lemma FailureWritesNothing<Ids, Decls>(rules: Rules<Ids, Decls>, d: Disk<Ids>, decls: Decls)
    requires !Attempt(rules, d, decls).1.Success()
    ensures Attempt(rules, d, decls).0 == [] && Final(rules, d, decls) == d
  {
  }

  lemma MigratedSettles<Ids(!new), Decls(!new)>(rules: Rules<Ids, Decls>, d: Disk<Ids>, decls: Decls)
    requires Sound(rules) && Attempt(rules, d, decls).1.Migrated?
    ensures Settles(rules, d, decls, Final(rules, d, decls))
  {
    var config := rules.parse(d.config).value;
    var writes := Attempt(rules, d, decls).0;
    ConvertCases(rules, d, decls, |writes|);
    EditExactly(rules.parse, d.config, config);
    var files := rules.place(d.legacy[config.idsFile].ids, decls).value;
    if files != [] {
      MapOfLookup(files, files[0].0);
      assert files[0].0 in MapOf(files);
    }
  }

  /** Where a run without a legacy file ends. */
  lemma ResumedFinal<Ids, Decls>(rules: Rules<Ids, Decls>, d: Disk<Ids>, decls: Decls)
    requires Attempt(rules, d, decls).1.Success() && !Attempt(rules, d, decls).1.Migrated?
    ensures !InPlace(rules, d) && ReadTree(d.dir).Some? && ReadTree(d.dir).value != map[]
    ensures var edit := NewConfig(rules.parse, d.config, rules.parse(d.config).value);
            && (edit.Keep? <==> Attempt(rules, d, decls).1.AlreadyMigrated?)
            && (edit.Replace? <==> Attempt(rules, d, decls).1.Finished?)
            && Final(rules, d, decls) == if edit.Replace? then d.(config := edit.lines) else d
  {
    var edit := NewConfig(rules.parse, d.config, rules.parse(d.config).value);
    if edit.Replace? {
      StatesConcat(d, [ReplaceConfig(edit.lines)], []);
    }
  }

  lemma ResumedSettles<Ids, Decls>(rules: Rules<Ids, Decls>, d: Disk<Ids>, decls: Decls)
    requires Attempt(rules, d, decls).1.Success() && !Attempt(rules, d, decls).1.Migrated?
    ensures Settles(rules, d, decls, Final(rules, d, decls))
  {
    ResumedFinal(rules, d, decls);
    EditExactly(rules.parse, d.config, rules.parse(d.config).value);
  }

  /** A run succeeds exactly if it leaves the project settled, and otherwise writes nothing. */
  lemma SucceedsExactly<Ids(!new), Decls(!new)>(rules: Rules<Ids, Decls>, d: Disk<Ids>, decls: Decls)
    requires Sound(rules)
    ensures Attempt(rules, d, decls).1.Success() <==> Settles(rules, d, decls, Final(rules, d, decls))
    ensures !Attempt(rules, d, decls).1.Success() ==> Attempt(rules, d, decls).0 == []
  {
    var r := Attempt(rules, d, decls).1;
    if r.Migrated? {
      MigratedSettles(rules, d, decls);
    } else if r.Success() {
      ResumedSettles(rules, d, decls);
    } else {
      FailureWritesNothing(rules, d, decls);
      if Settles(rules, d, decls, d) {
        EditExactly(rules.parse, d.config, rules.parse(d.config).value);
      }
    }
  }

  // ---------- What each answer means ----------

  /** The three successes: there was a legacy file; there was none and the config said so; or did not. */
  lemma SuccessesExactly<Ids, Decls>(rules: Rules<Ids, Decls>, d: Disk<Ids>, decls: Decls)
    ensures var r := Attempt(rules, d, decls).1;
            && (r.Migrated? <==> r.Success() && InPlace(rules, d))
            && (r.AlreadyMigrated? <==> r.Success() && !InPlace(rules, d) && SaysSo(d.config))
            && (r.Finished? <==> r.Success() && !InPlace(rules, d) && !SaysSo(d.config))
            && (r.AlreadyMigrated? ==> Final(rules, d, decls) == d)
            && (r.Finished? ==> Final(rules, d, decls) == d.(config := Final(rules, d, decls).config))
  {
    var r := Attempt(rules, d, decls).1;
    if r.Success() && !r.Migrated? {
      ResumedFinal(rules, d, decls);
      EditExactly(rules.parse, d.config, rules.parse(d.config).value);
    }
  }

  /** A project with neither a legacy file nor an identity file is told that there is nothing to migrate. */
  lemma NothingExactly<Ids, Decls>(rules: Rules<Ids, Decls>, d: Disk<Ids>, decls: Decls)
    ensures (Attempt(rules, d, decls).1.NothingToMigrate?
             <==> && rules.parse(d.config).Some? && !InPlace(rules, d)
                  && TreeReads(d.dir) && (d.dir.Directory? ==> d.dir.files == map[]))
  {
  }

  /** The refusals that look at one thing. */
  lemma UnreadableExactly<Ids, Decls>(rules: Rules<Ids, Decls>, d: Disk<Ids>, decls: Decls)
    ensures var r := Attempt(rules, d, decls).1;
            && (r.UnreadableConfig? <==> rules.parse(d.config).None?)
            && (r.UnreadableTree? <==> rules.parse(d.config).Some? && !TreeReads(d.dir))
            && (r.DamagedLegacy? <==> TreeReads(d.dir) && InPlace(rules, d)
                                      && d.legacy[rules.parse(d.config).value.idsFile].Damaged?)
  {
  }

  /** A readable project with this mapping in its legacy file. */
  ghost predicate ToConvert<Ids, Decls>(rules: Rules<Ids, Decls>, d: Disk<Ids>, ids: Ids) {
    TreeReads(d.dir) && InPlace(rules, d) && d.legacy[rules.parse(d.config).value.idsFile] == Mapping(ids)
  }

  /** The tree the mapping goes into. */
  ghost predicate Planned<Ids, Decls>(rules: Rules<Ids, Decls>, d: Disk<Ids>, decls: Decls, ids: Ids,
                                      tree: map<Path, Text>)
  {
    && ToConvert(rules, d, ids) && rules.place(ids, decls).Some? && tree == MapOf(rules.place(ids, decls).value)
  }

  /** Every file there is one the migration would write, byte for byte. */
  ghost predicate OwnWork(dir: IdsDir, tree: map<Path, Text>) {
    dir.Directory? ==> forall p :: p in dir.files ==> p in tree && tree[p] == dir.files[p]
  }

  lemma ConversionExactly<Ids, Decls>(rules: Rules<Ids, Decls>, d: Disk<Ids>, decls: Decls, ids: Ids)
    requires ToConvert(rules, d, ids)
    ensures var r := Attempt(rules, d, decls).1;
            && (r.Unplaceable? <==> rules.place(ids, decls).None?)
            && forall tree :: Planned(rules, d, decls, ids, tree) ==>
                 && (r.BadRoundTrip? <==> rules.assemble(tree) != Some(ids))
                 && (r.ForeignTree? <==> rules.assemble(tree) == Some(ids) && !OwnWork(d.dir, tree))
                 && (r.UneditableConfig? <==> rules.assemble(tree) == Some(ids) && OwnWork(d.dir, tree)
                                              && CannotEdit(rules, d))
                 && (r.Migrated? <==> rules.assemble(tree) == Some(ids) && OwnWork(d.dir, tree)
                                      && !CannotEdit(rules, d))
  {
    EditExactly(rules.parse, d.config, rules.parse(d.config).value);
    assert d.dir.Directory? ==> ReadTree(d.dir) == Some(d.dir.files);
  }

  /** The config does not say so yet and its edit would not read back. */
  ghost predicate CannotEdit<Ids, Decls>(rules: Rules<Ids, Decls>, d: Disk<Ids>) {
    && rules.parse(d.config).Some? && !SaysSo(d.config)
    && !ReadsBack(rules.parse, Drafted(d.config, rules.parse(d.config).value), rules.parse(d.config).value)
  }

  /** Without a legacy file the config is all that can still be wrong. */
  lemma ResumptionExactly<Ids, Decls>(rules: Rules<Ids, Decls>, d: Disk<Ids>, decls: Decls)
    requires rules.parse(d.config).Some? && !InPlace(rules, d)
    requires TreeReads(d.dir) && d.dir.Directory? && d.dir.files != map[]
    ensures var r := Attempt(rules, d, decls).1;
            (r.UneditableConfig? <==> CannotEdit(rules, d)) && (r.Success() <==> !CannotEdit(rules, d))
  {
    EditExactly(rules.parse, d.config, rules.parse(d.config).value);
  }

  // ---------- The reader ----------

  /** What every other command reads: no identities only where there is neither a legacy file nor anything of a tree. */
  lemma ReadsExactly<Ids, Decls>(rules: Rules<Ids, Decls>, d: Disk<Ids>)
    ensures (Read(rules, d).NoIdentities?
             <==> && rules.parse(d.config).Some? && !InPlace(rules, d)
                  && (d.dir == Absent || d.dir == Directory(map[], {}, false)))
    ensures forall ids :: (Read(rules, d) == Found(ids)
                           <==> InPlace(rules, d) && d.legacy[rules.parse(d.config).value.idsFile] == Mapping(ids))
    ensures (Read(rules, d).Refused?
             <==> || rules.parse(d.config).None?
                  || (InPlace(rules, d) && d.legacy[rules.parse(d.config).value.idsFile].Damaged?)
                  || (!InPlace(rules, d) && d.dir != Absent && d.dir != Directory(map[], {}, false)))
  {
  }
}

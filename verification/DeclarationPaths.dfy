/**
The paths of every kind of declaration: none is another's but over case, each
declaration with a file of its own is written, and ordinary names are spelled
as they are.
*/
module DeclarationPaths {
  import opened Catalog
  import opened DeclarationFile

  // ---------- The spelling ----------

  lemma HexSpells(n: nat)
    requires n < 16
    ensures Hex(n) == "0123456789ABCDEF"[n]
  {
  }

  /** Each byte is itself, or a percent sign and two hexadecimal digits. */
  lemma ByteSpells(b: Byte)
    ensures EncodeByte(b) ==
              if '0' as int <= b <= '9' as int || 'A' as int <= b <= 'Z' as int || 'a' as int <= b <= 'z' as int
                 || b == '_' as int || b == '-' as int
              then [b as char] else ['%', "0123456789ABCDEF"[b / 16], "0123456789ABCDEF"[b % 16]]
  {
    HexSpells(b / 16);
    HexSpells(b % 16);
  }

  /** An ordinary name stays readable. */
  lemma {:induction false} PlainStays(v: Bytes)
    requires forall i :: 0 <= i < |v| ==> Safe(v[i])
    ensures |Encode(v)| == |v| && forall i :: 0 <= i < |v| ==> Encode(v)[i] as int == v[i]
  {
    if v != [] {
      PlainStays(v[1..]);
    }
  }

  const DEVICES: seq<string> := [
    "CON", "PRN", "AUX", "NUL", "COM0", "COM1", "COM2", "COM3", "COM4", "COM5", "COM6", "COM7", "COM8", "COM9",
    "LPT0", "LPT1", "LPT2", "LPT3", "LPT4", "LPT5", "LPT6", "LPT7", "LPT8", "LPT9"]

  predicate LikeADevice(stem: string) {
    exists i :: 0 <= i < |DEVICES| && Fold(DEVICES[i]) == Fold(stem)
  }

  lemma Numbered(word: string, digit: char)
    requires |word| == 3 && Digit(digit)
    ensures Fold(word + [digit]) == Fold(word) + [digit]
  {
  }

  /** The device stems are the 24 that Windows reserves. */
  lemma DevicesExactly(stem: string)
    ensures Device(stem) <==> LikeADevice(stem)
  {
    var folded := Fold(stem);
    FoldedWords();
    forall i | 0 <= i < 10
      ensures Fold(DEVICES[4 + i]) == "com" + ["0123456789"[i]] && Fold(DEVICES[14 + i]) == "lpt" + ["0123456789"[i]]
    {
      var digit := "0123456789"[i];
      assert DEVICES[4 + i] == "COM" + [digit] && DEVICES[14 + i] == "LPT" + [digit];
      Numbered("COM", digit);
      Numbered("LPT", digit);
    }
    if Device(stem) {
      DeviceListed(stem);
    }
    if LikeADevice(stem) {
      var i :| 0 <= i < |DEVICES| && Fold(DEVICES[i]) == folded;
      if 4 <= i < 14 { assert Fold(DEVICES[4 + (i - 4)]) == "com" + ["0123456789"[i - 4]]; }
      if 14 <= i { assert Fold(DEVICES[14 + (i - 14)]) == "lpt" + ["0123456789"[i - 14]]; }
    }
  }

  lemma FoldedWords()
    ensures Fold("CON") == "con" && Fold("PRN") == "prn" && Fold("AUX") == "aux" && Fold("NUL") == "nul"
    ensures Fold("COM") == "com" && Fold("LPT") == "lpt"
  {
  }

  lemma DeviceListed(stem: string)
    requires Device(stem)
    requires forall i :: 0 <= i < 10 ==> Fold(DEVICES[4 + i]) == "com" + ["0123456789"[i]]
    requires forall i :: 0 <= i < 10 ==> Fold(DEVICES[14 + i]) == "lpt" + ["0123456789"[i]]
    ensures LikeADevice(stem)
  {
    var folded := Fold(stem);
    FoldedWords();
    assert Fold(DEVICES[0]) == "con" && Fold(DEVICES[1]) == "prn";
    assert Fold(DEVICES[2]) == "aux" && Fold(DEVICES[3]) == "nul";
    if |folded| == 4 {
      var i := folded[3] as int - '0' as int;
      assert "0123456789"[i] == folded[3];
      assert folded == folded[..3] + [folded[3]];
      assert Fold(DEVICES[4 + i]) == "com" + [folded[3]] && Fold(DEVICES[14 + i]) == "lpt" + [folded[3]];
    }
  }

  /** A name of plain bytes as text. */
  function Text(v: Bytes): string {
    seq(|v|, i requires 0 <= i < |v| => v[i] as char)
  }

  predicate Ordinary(v: Bytes) {
    |v| <= 100 && forall i :: 0 <= i < |v| ==> Safe(v[i])
  }

  lemma EncodesAsText(v: Bytes)
    requires Ordinary(v)
    ensures Encode(v) == Text(v)
  {
    PlainStays(v);
    forall i | 0 <= i < |v| ensures Encode(v)[i] == Text(v)[i] {
    }
  }

  /** What follows the two names of an ordinary file. */
  function Suffix(kind: Option<ModuleKind>): string {
    match kind
    case None => ".yml"
    case Some(View) => "." + ("view" + ".yml")
    case Some(Procedure) => "." + ("procedure" + ".yml")
    case Some(Function) => "." + ("function" + ".yml")
    case Some(Trigger) => "." + ("trigger" + ".yml")
  }

  lemma SuffixIsTail(kind: Option<ModuleKind>)
    ensures Suffix(kind) == "." + Tail(WhatOf(kind)) && |Suffix(kind)| <= 20
  {
    assert "." + "yml" == ".yml";
  }

  lemma JoinDots(a: string, b: string, c: string)
    ensures a + "." + (b + "." + c) == a + "." + b + ("." + c)
  {
  }

  /** Ordinary names stay readable: the file of an object is its schema, its name and its kind, joined by dots. */
  lemma OrdinaryFiles(digest: Bytes -> string, schema: Bytes, name: Bytes, kind: Option<ModuleKind>)
    requires Ordinary(schema) && Ordinary(name) && !LikeADevice(Text(schema))
    ensures FileName(digest, schema, name, kind) == Text(schema) + "." + Text(name) + Suffix(kind)
  {
    EncodesAsText(schema);
    EncodesAsText(name);
    DevicesExactly(Text(schema));
    SuffixIsTail(kind);
    JoinDots(Text(schema), Text(name), Tail(WhatOf(kind)));
  }

  // ---------- Routines ----------

  /** An argument type as a signature spells it: no comma, and not empty. */
  predicate Argument(v: Bytes) {
    v != [] && COMMA !in v
  }

  lemma {:induction false} SplitAtComma(a: Bytes, x: Bytes, b: Bytes, y: Bytes)
    requires a + [COMMA] + x == b + [COMMA] + y && COMMA !in a && COMMA !in b
    ensures a == b && x == y
  {
    var s, t := a + [COMMA] + x, b + [COMMA] + y;
    assert s[0] == (if a == [] then COMMA else a[0]);
    assert t[0] == (if b == [] then COMMA else b[0]);
    if a == [] {
      assert s[1..] == x && t[1..] == y;
    } else {
      assert s[1..] == a[1..] + [COMMA] + x && t[1..] == b[1..] + [COMMA] + y;
      SplitAtComma(a[1..], x, b[1..], y);
    }
  }

  lemma HasComma(a: Bytes, x: Bytes)
    ensures COMMA in a + [COMMA] + x
  {
    assert (a + [COMMA] + x)[|a|] == COMMA;
  }

  /** The list of arguments is told by how it is joined. */
  lemma {:induction false} ArgumentsTell(a: seq<Bytes>, b: seq<Bytes>)
    requires forall i :: 0 <= i < |a| ==> Argument(a[i])
    requires forall i :: 0 <= i < |b| ==> Argument(b[i])
    requires JoinBytes(a) == JoinBytes(b)
    ensures a == b
  {
    if |a| > 1 { HasComma(a[0], JoinBytes(a[1..])); }
    if |b| > 1 { HasComma(b[0], JoinBytes(b[1..])); }
    if |a| > 1 && |b| > 1 {
      SplitAtComma(a[0], JoinBytes(a[1..]), b[0], JoinBytes(b[1..]));
      ArgumentsTell(a[1..], b[1..]);
      assert a == [a[0]] + a[1..] && b == [b[0]] + b[1..];
    }
  }

  /** Two overloads of one routine have two stems. */
  lemma OverloadsTell(schema: Bytes, name: Bytes, a: seq<Bytes>, b: seq<Bytes>)
    requires forall i :: 0 <= i < |a| ==> Argument(a[i])
    requires forall i :: 0 <= i < |b| ==> Argument(b[i])
    requires Stem(RoutineModule(schema, name, a)) == Stem(RoutineModule(schema, name, b))
    ensures a == b
  {
    var x, y := JoinBytes(a), JoinBytes(b);
    assert (name + [OPEN] + x + [CLOSE])[|name| + 1..] == x + [CLOSE];
    assert (name + [OPEN] + y + [CLOSE])[|name| + 1..] == y + [CLOSE];
    assert (x + [CLOSE])[..|x|] == x && (y + [CLOSE])[..|y|] == y;
    ArgumentsTell(a, b);
  }

  // ---------- What is written ----------

  /** Every declaration is written as often as it is declared, save the partitions, which are not. */
  lemma {:induction false} FiledExactly(schema: seq<Declaration>, d: Declaration)
    ensures multiset(Filed(schema))[d] == if d.Table? && d.partition then 0 else multiset(schema)[d]
  {
    if schema != [] {
      FiledExactly(schema[1..], d);
      assert schema == [schema[0]] + schema[1..];
    }
  }

  // ---------- One path a declaration ----------

  /** A file at the top of the directory. */
  function TopPath(digest: Bytes -> string, schema: Bytes, stem: Bytes, what: What, preimage: Bytes): string {
    OrHashed(digest, ReadableName(schema, stem, what), preimage, "." + Tail(what))
  }

  predicate Readable(schema: Bytes, stem: Bytes, what: What) {
    |ReadableName(schema, stem, what)| <= LONGEST
  }

  lemma TopFirst(digest: Bytes -> string, s: Bytes, n: Bytes, w: What, p: Bytes)
    ensures var f := TopPath(digest, s, n, w, p); f != "" && (f[0] == '~' <==> !Readable(s, n, w))
  {
    NeverHashed(s, n, w);
  }

  lemma HashedTop(digest: Bytes -> string, s: Bytes, n: Bytes, w: What, p: Bytes)
    requires !Readable(s, n, w)
    ensures TopPath(digest, s, n, w, p) == "~pbps-" + digest(p) + "." + Tail(w)
  {
    assert "~pbps-" + digest(p) + ("." + Tail(w)) == "~pbps-" + digest(p) + "." + Tail(w);
  }

  /** Two paths at the top that differ in case alone name things that do, or have one digest. */
  lemma TopTells(digest: Bytes -> string, s1: Bytes, n1: Bytes, w1: What, p1: Bytes, s2: Bytes, n2: Bytes, w2: What,
                 p2: Bytes)
    requires IsDigest(digest(p1)) && IsDigest(digest(p2))
    requires Fold(TopPath(digest, s1, n1, w1, p1)) == Fold(TopPath(digest, s2, n2, w2, p2))
    ensures w1 == w2
    ensures if Readable(s1, n1, w1) then Lower(s1) == Lower(s2) && Lower(n1) == Lower(n2)
            else !Readable(s2, n2, w2) && digest(p1) == digest(p2)
  {
    var f1, f2 := TopPath(digest, s1, n1, w1, p1), TopPath(digest, s2, n2, w2, p2);
    TopFirst(digest, s1, n1, w1, p1);
    TopFirst(digest, s2, n2, w2, p2);
    assert FoldChar(f1[0]) == FoldChar(f2[0]);
    if Readable(s1, n1, w1) {
      FoldedReadableTells(s1, n1, w1, s2, n2, w2);
    } else {
      HashedTop(digest, s1, n1, w1, p1);
      HashedTop(digest, s2, n2, w2, p2);
      HashedFolds(digest(p1), w1);
      HashedFolds(digest(p2), w2);
      LongTells(digest(p1), w1, digest(p2), w2);
      assert f1[71..] == Tail(w1) && f2[71..] == Tail(w2);
      TailTells(w1, w2);
    }
  }

  /** At the top there is no separator. */
  lemma TopHasNoSeparator(digest: Bytes -> string, s: Bytes, n: Bytes, w: What, p: Bytes)
    requires IsDigest(digest(p))
    ensures '/' !in Fold(TopPath(digest, s, n, w, p))
  {
    var f := TopPath(digest, s, n, w, p);
    if Readable(s, n, w) {
      ReadableTame(s, n, w);
    } else {
      HashedTop(digest, s, n, w, p);
      HashedTame(digest(p), w);
    }
    TameHasNoSeparator(f);
    forall i | 0 <= i < |f| ensures Fold(f)[i] != '/' {
      assert f[i] in f;
    }
  }

  predicate AtTop(d: Declaration) {
    d.Table? || d.Module? || d.UserType?
  }

  function SchemaOf(d: Declaration): Bytes
    requires AtTop(d)
  {
    match d
    case Table(schema, _, _) => schema
    case Module(id, _) => id.schema
    case UserType(schema, _, _) => schema
  }

  function StemOf(d: Declaration): Bytes
    requires AtTop(d)
  {
    match d
    case Table(_, name, _) => name
    case Module(id, _) => Stem(id)
    case UserType(_, name, _) => name
  }

  function KindOf(d: Declaration): What
    requires AtTop(d)
  {
    match d
    case Table(_, _, _) => TableFile
    case Module(_, kind) => ModuleFile(kind)
    case UserType(_, _, _) => TypeFile
  }

  /** What is hashed where the readable form is too long; an extension's never is. */
  function HashedOf(d: Declaration): Bytes {
    match d
    case Table(schema, name, _) => schema + [0] + (name + [0] + Ascii("table"))
    case Module(id, kind) => id.schema + [0] + (Stem(id) + [0] + Ascii(KindWord(kind)))
    case UserType(_, _, spelled) => spelled + [0] + Ascii("type")
    case Role(name) => name + [0] + Ascii("role")
    case Extension(_) => []
  }

  lemma TopOf(digest: Bytes -> string, d: Declaration)
    requires AtTop(d)
    ensures PathOf(digest, d) == TopPath(digest, SchemaOf(d), StemOf(d), KindOf(d), HashedOf(d))
  {
    var h := digest(HashedOf(d));
    assert "~pbps-" + h + ("." + Tail(KindOf(d))) == "~pbps-" + h + "." + Tail(KindOf(d));
  }

  /** Legal names: no NUL, and a type's spelling tells its name. */
  predicate Legal(d: Declaration) {
    match d
    case Extension(_) => true
    case Role(name) => NoNul(name)
    case _ => NoNul(SchemaOf(d)) && NoNul(StemOf(d))
  }

  /** Two spellings are one exactly if the types are. */
  predicate SpellingsTell(a: Declaration, b: Declaration) {
    a.UserType? && b.UserType? ==> (a.spelled == b.spelled <==> a.schema == b.schema && a.name == b.name)
  }

  /** The two declare things of one kind whose names differ in case alone. */
  predicate SameButCase(a: Declaration, b: Declaration) {
    match a
    case Extension(name) => b.Extension? && Lower(name) == Lower(b.name)
    case Role(name) => b.Role? && Lower(name) == Lower(b.name)
    case Table(schema, name, _) => b.Table? && Lower(schema) == Lower(b.schema) && Lower(name) == Lower(b.name)
    case UserType(schema, name, _) => b.UserType? && Lower(schema) == Lower(b.schema) && Lower(name) == Lower(b.name)
    case Module(id, kind) =>
      b.Module? && Lower(id.schema) == Lower(b.id.schema) && Lower(Stem(id)) == Lower(Stem(b.id)) && kind == b.kind
  }

  lemma HashedTells(a: Declaration, b: Declaration)
    requires AtTop(a) && AtTop(b) && KindOf(a) == KindOf(b) && Legal(a) && Legal(b) && SpellingsTell(a, b)
    requires HashedOf(a) == HashedOf(b)
    ensures SchemaOf(a) == SchemaOf(b) && StemOf(a) == StemOf(b)
  {
    match a
    case UserType(_, _, spelled) =>
      assert HashedOf(a)[..|spelled|] == spelled && HashedOf(b)[..|b.spelled|] == b.spelled;
    case Table(_, _, _) => PreimageTells(a.schema, a.name, None, b.schema, b.name, None);
    case Module(id, kind) => PreimageTells(id.schema, Stem(id), Some(kind), b.id.schema, Stem(b.id), Some(kind));
  }

  lemma TopsTell(digest: Bytes -> string, a: Declaration, b: Declaration)
    requires AtTop(a) && AtTop(b) && Legal(a) && Legal(b) && SpellingsTell(a, b)
    requires NoCollision(digest, HashedOf(a), HashedOf(b))
    requires Fold(PathOf(digest, a)) == Fold(PathOf(digest, b))
    ensures SameButCase(a, b)
  {
    TopOf(digest, a);
    TopOf(digest, b);
    TopTells(digest, SchemaOf(a), StemOf(a), KindOf(a), HashedOf(a), SchemaOf(b), StemOf(b), KindOf(b), HashedOf(b));
    if !Readable(SchemaOf(a), StemOf(a), KindOf(a)) {
      HashedTells(a, b);
    }
  }

  // The subdirectories.

  lemma FoldJoin(a: string, b: string)
    ensures Fold(a + b) == Fold(a) + Fold(b)
  {
  }

  lemma FoldedPrefixes()
    ensures Fold("extensions/") == "extensions/" && Fold("roles/") == "roles/" && Fold(".yml") == ".yml"
  {
  }

  function RoleFile(digest: Bytes -> string, name: Bytes): string {
    OrHashed(digest, EscapeReserved(Encode(name)) + ".yml", name + [0] + Ascii("role"), ".yml")
  }

  /** Where a role's or an extension's file lies. */
  lemma SubdirectoryOf(digest: Bytes -> string, d: Declaration)
    requires d.Role? || d.Extension?
    ensures var f := Fold(PathOf(digest, d));
            if d.Role? then f == "roles/" + Fold(RoleFile(digest, d.name))
            else f == "extensions/" + (Fold(EscapeReserved(Encode(d.name))) + ".yml")
  {
    FoldedPrefixes();
    if d.Role? {
      FoldJoin("roles/", RoleFile(digest, d.name));
    } else {
      var e := EscapeReserved(Encode(d.name));
      assert PathOf(digest, d) == "extensions/" + (e + ".yml");
      FoldJoin("extensions/", e + ".yml");
      FoldJoin(e, ".yml");
    }
  }

  lemma SuffixTells(a: string, b: string)
    requires a + ".yml" == b + ".yml"
    ensures a == b
  {
    assert (a + ".yml")[..|a|] == a && (b + ".yml")[..|b|] == b;
  }

  lemma PrefixTells(p: string, a: string, b: string)
    requires p + a == p + b
    ensures a == b
  {
    assert (p + a)[|p|..] == a && (p + b)[|p|..] == b;
  }

  lemma ExtensionsTell(digest: Bytes -> string, a: Declaration, b: Declaration)
    requires a.Extension? && b.Extension? && Fold(PathOf(digest, a)) == Fold(PathOf(digest, b))
    ensures SameButCase(a, b)
  {
    SubdirectoryOf(digest, a);
    SubdirectoryOf(digest, b);
    var e, f := Fold(EscapeReserved(Encode(a.name))), Fold(EscapeReserved(Encode(b.name)));
    PrefixTells("extensions/", e + ".yml", f + ".yml");
    SuffixTells(e, f);
    EncodingTells(a.name, b.name);
  }

  lemma RoleFirst(digest: Bytes -> string, name: Bytes)
    ensures var f := RoleFile(digest, name);
            f != "" && (f[0] == '~' <==> |EscapeReserved(Encode(name)) + ".yml"| > LONGEST)
  {
    EscapeAlphabet(name);
    var e := EscapeReserved(Encode(name));
    assert (e + ".yml")[0] == if e == "" then '.' else e[0];
  }

  lemma HashedRoleFolds(h: string)
    requires IsDigest(h)
    ensures Fold("~pbps-" + h + ".yml") == "~pbps-" + h + ".yml"
  {
    HashedFolds(h, TableFile);
    assert "~pbps-" + h + "." + Tail(TableFile) == "~pbps-" + h + ".yml";
  }

  lemma RolesTell(digest: Bytes -> string, a: Declaration, b: Declaration)
    requires a.Role? && b.Role? && NoCollision(digest, HashedOf(a), HashedOf(b))
    requires Fold(PathOf(digest, a)) == Fold(PathOf(digest, b))
    ensures SameButCase(a, b)
  {
    SubdirectoryOf(digest, a);
    SubdirectoryOf(digest, b);
    var f, g := RoleFile(digest, a.name), RoleFile(digest, b.name);
    PrefixTells("roles/", Fold(f), Fold(g));
    RoleFirst(digest, a.name);
    RoleFirst(digest, b.name);
    assert FoldChar(f[0]) == FoldChar(g[0]);
    if f[0] == '~' {
      HashedRolesTell(digest, a.name, b.name);
    } else {
      FoldedPrefixes();
      FoldJoin(EscapeReserved(Encode(a.name)), ".yml");
      FoldJoin(EscapeReserved(Encode(b.name)), ".yml");
      SuffixTells(Fold(EscapeReserved(Encode(a.name))), Fold(EscapeReserved(Encode(b.name))));
      EncodingTells(a.name, b.name);
    }
  }

  lemma HashedRolesTell(digest: Bytes -> string, m: Bytes, n: Bytes)
    requires NoCollision(digest, m + [0] + Ascii("role"), n + [0] + Ascii("role"))
    requires RoleFile(digest, m) == "~pbps-" + digest(m + [0] + Ascii("role")) + ".yml"
    requires RoleFile(digest, n) == "~pbps-" + digest(n + [0] + Ascii("role")) + ".yml"
    requires Fold(RoleFile(digest, m)) == Fold(RoleFile(digest, n))
    ensures m == n
  {
    var p, q := m + [0] + Ascii("role"), n + [0] + Ascii("role");
    HashedRoleFolds(digest(p));
    HashedRoleFolds(digest(q));
    var s, t := "~pbps-" + digest(p) + ".yml", "~pbps-" + digest(q) + ".yml";
    assert s[6..70] == digest(p) && t[6..70] == digest(q);
    assert p[..|m|] == m && q[..|n|] == n;
  }

  /** The three directories are apart. */
  lemma DirectoriesApart(digest: Bytes -> string, a: Declaration, b: Declaration)
    requires NoCollision(digest, HashedOf(a), HashedOf(b))
    requires Fold(PathOf(digest, a)) == Fold(PathOf(digest, b))
    ensures AtTop(a) <==> AtTop(b)
    ensures a.Role? <==> b.Role?
  {
    if AtTop(a) {
      TopOf(digest, a);
      TopHasNoSeparator(digest, SchemaOf(a), StemOf(a), KindOf(a), HashedOf(a));
    } else {
      SubdirectoryOf(digest, a);
      assert Fold(PathOf(digest, a))[if a.Role? then 5 else 10] == '/';
      assert Fold(PathOf(digest, a))[0] == if a.Role? then 'r' else 'e';
    }
    if AtTop(b) {
      TopOf(digest, b);
      TopHasNoSeparator(digest, SchemaOf(b), StemOf(b), KindOf(b), HashedOf(b));
    } else {
      SubdirectoryOf(digest, b);
      assert Fold(PathOf(digest, b))[if b.Role? then 5 else 10] == '/';
      assert Fold(PathOf(digest, b))[0] == if b.Role? then 'r' else 'e';
    }
  }

  /**
  Of any two declarations, of whatever kinds, the paths are told apart unless
  the declarations are of one kind and their names differ in case alone.
  */
  lemma PathsTell(digest: Bytes -> string, a: Declaration, b: Declaration)
    requires Legal(a) && Legal(b) && SpellingsTell(a, b) && NoCollision(digest, HashedOf(a), HashedOf(b))
    requires Fold(PathOf(digest, a)) == Fold(PathOf(digest, b))
    ensures SameButCase(a, b)
  {
    DirectoriesApart(digest, a, b);
    if AtTop(a) {
      TopsTell(digest, a, b);
    } else if a.Role? {
      RolesTell(digest, a, b);
    } else {
      ExtensionsTell(digest, a, b);
    }
  }

  /** The two declare one thing, as far as a path can say: a module's arguments and table are in its stem. */
  predicate Same(a: Declaration, b: Declaration) {
    match a
    case Extension(name) => b.Extension? && name == b.name
    case Role(name) => b.Role? && name == b.name
    case _ => AtTop(b) && KindOf(a) == KindOf(b) && SchemaOf(a) == SchemaOf(b) && StemOf(a) == StemOf(b)
  }

  lemma TopsInjective(digest: Bytes -> string, a: Declaration, b: Declaration)
    requires AtTop(a) && AtTop(b) && Legal(a) && Legal(b) && SpellingsTell(a, b)
    requires NoCollision(digest, HashedOf(a), HashedOf(b)) && PathOf(digest, a) == PathOf(digest, b)
    ensures Same(a, b)
  {
    TopsTell(digest, a, b);
    TopOf(digest, a);
    TopOf(digest, b);
    TopTells(digest, SchemaOf(a), StemOf(a), KindOf(a), HashedOf(a), SchemaOf(b), StemOf(b), KindOf(b), HashedOf(b));
    TopFirst(digest, SchemaOf(a), StemOf(a), KindOf(a), HashedOf(a));
    TopFirst(digest, SchemaOf(b), StemOf(b), KindOf(b), HashedOf(b));
    if Readable(SchemaOf(a), StemOf(a), KindOf(a)) {
      ReadableTells(SchemaOf(a), StemOf(a), KindOf(a), SchemaOf(b), StemOf(b), KindOf(b));
    } else {
      HashedTells(a, b);
    }
  }

  lemma RolesInjective(digest: Bytes -> string, a: Declaration, b: Declaration)
    requires a.Role? && b.Role? && NoCollision(digest, HashedOf(a), HashedOf(b))
    requires PathOf(digest, a) == PathOf(digest, b)
    ensures Same(a, b)
  {
    var f, g := RoleFile(digest, a.name), RoleFile(digest, b.name);
    PrefixTells("roles/", f, g);
    RoleFirst(digest, a.name);
    RoleFirst(digest, b.name);
    if f[0] == '~' {
      HashedRolesTell(digest, a.name, b.name);
    } else {
      SuffixTells(EscapeReserved(Encode(a.name)), EscapeReserved(Encode(b.name)));
      EncodingTells(a.name, b.name);
    }
  }

  lemma ExtensionsInjective(digest: Bytes -> string, a: Declaration, b: Declaration)
    requires a.Extension? && b.Extension? && PathOf(digest, a) == PathOf(digest, b)
    ensures Same(a, b)
  {
    var e, f := EscapeReserved(Encode(a.name)), EscapeReserved(Encode(b.name));
    assert PathOf(digest, a) == "extensions/" + (e + ".yml") && PathOf(digest, b) == "extensions/" + (f + ".yml");
    PrefixTells("extensions/", e + ".yml", f + ".yml");
    SuffixTells(e, f);
    EncodingTells(a.name, b.name);
  }

  /** Paths that are equal outright are of one declaration. */
  lemma PathsInjective(digest: Bytes -> string, a: Declaration, b: Declaration)
    requires Legal(a) && Legal(b) && SpellingsTell(a, b) && NoCollision(digest, HashedOf(a), HashedOf(b))
    requires PathOf(digest, a) == PathOf(digest, b)
    ensures Same(a, b)
  {
    DirectoriesApart(digest, a, b);
    if AtTop(a) {
      TopsInjective(digest, a, b);
    } else if a.Role? {
      RolesInjective(digest, a, b);
    } else {
      ExtensionsInjective(digest, a, b);
    }
  }

  // ---------- The whole directory ----------

  /** No two declarations that need a file of their own differ in case alone, or are told apart by no path. */
  ghost predicate NamesApart(schema: seq<Declaration>) {
    forall i, j :: 0 <= i < j < |Filed(schema)| ==> !SameButCase(Filed(schema)[i], Filed(schema)[j])
  }

  predicate LegalPair(digest: Bytes -> string, a: Declaration, b: Declaration) {
    Legal(a) && Legal(b) && SpellingsTell(a, b) && NoCollision(digest, HashedOf(a), HashedOf(b))
  }

  ghost predicate AllLegal(digest: Bytes -> string, schema: seq<Declaration>) {
    forall i, j :: 0 <= i < j < |Filed(schema)| ==> LegalPair(digest, Filed(schema)[i], Filed(schema)[j])
  }

  lemma PairApart(digest: Bytes -> string, a: Declaration, b: Declaration)
    requires LegalPair(digest, a, b) && !SameButCase(a, b)
    ensures Fold(PathOf(digest, a)) != Fold(PathOf(digest, b))
  {
    if Fold(PathOf(digest, a)) == Fold(PathOf(digest, b)) {
      PathsTell(digest, a, b);
    }
  }

  /** Where no two names differ in case alone, everything is written. */
  lemma OrdinaryNamesAreWritten(digest: Bytes -> string, schema: seq<Declaration>)
    requires AllLegal(digest, schema) && NamesApart(schema)
    ensures Separate(digest, Filed(schema))
  {
    var filed := Filed(schema);
    forall i, j | 0 <= i < j < |filed| ensures Fold(PathOf(digest, filed[i])) != Fold(PathOf(digest, filed[j])) {
      PairApart(digest, filed[i], filed[j]);
    }
  }
}

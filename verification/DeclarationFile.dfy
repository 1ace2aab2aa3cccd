/**
File names for generated declarations: ordinary identifiers stay readable,
different names get different files, no name becomes a path, and two files
that differ only in case are refused before either is written.
*/
module DeclarationFile {
  import opened Catalog

  type Byte = b: nat | b < 256
  type Bytes = seq<Byte>

  // ------------------------------------------------------------- one component

  predicate Digit(c: char) { '0' <= c <= '9' }
  predicate Upper(c: char) { 'A' <= c <= 'Z' }
  predicate LowerCase(c: char) { 'a' <= c <= 'z' }

  /** The alphabet a component keeps as it is. */
  predicate Plain(c: char) {
    Digit(c) || Upper(c) || LowerCase(c) || c == '_' || c == '-'
  }

  predicate Safe(b: Byte) {
    b < 128 && Plain(b as char)
  }

  function Hex(n: nat): char
    requires n < 16
  {
    if n < 10 then ('0' as int + n) as char else ('A' as int + (n - 10)) as char
  }

  function EncodeByte(b: Byte): string {
    if Safe(b) then [b as char] else ['%', Hex(b / 16), Hex(b % 16)]
  }

  function Encode(value: Bytes): string {
    if value == [] then "" else EncodeByte(value[0]) + Encode(value[1..])
  }

  method Component(value: Bytes) returns (out: string)
    ensures out == Encode(value)
  {
    out := "";
    var i := 0;
    assert value[0..] == value;
    while i < |value|
      invariant i <= |value|
      invariant Encode(value) == out + Encode(value[i..])
    {
      EncodeStep(value, i);
      var piece := EncodeByte(value[i]);
      assert (out + piece) + Encode(value[i + 1..]) == out + (piece + Encode(value[i + 1..]));
      out := out + piece;
      i := i + 1;
    }
    assert value[i..] == [];
  }

  lemma EncodeStep(value: Bytes, i: nat)
    requires i < |value|
    ensures Encode(value[i..]) == EncodeByte(value[i]) + Encode(value[i + 1..])
  {
    assert value[i..][0] == value[i] && value[i..][1..] == value[i + 1..];
  }

  // --------------------------------------------------------------- reading back

  function HexValue(c: char): Option<nat> {
    if Digit(c) then Some(c as int - '0' as int)
    else if 'A' <= c <= 'F' then Some(c as int - 'A' as int + 10)
    else if 'a' <= c <= 'f' then Some(c as int - 'a' as int + 10)
    else None
  }

  /** The bytes an encoded component stands for. */
  function Decode(s: string): Option<Bytes> {
    if s == "" then Some([])
    else if s[0] == '%' then
      if |s| < 3 || HexValue(s[1]).None? || HexValue(s[2]).None? then None
      else
        var rest := Decode(s[3..]);
        var b := HexValue(s[1]).value * 16 + HexValue(s[2]).value;
        if rest.None? || b >= 256 then None else Some([b] + rest.value)
    else if Plain(s[0]) then
      var rest := Decode(s[1..]);
      if rest.None? then None else Some([s[0] as int] + rest.value)
    else None
  }

  /** ASCII case folding, as a file system that ignores case reads a name. */
  function FoldChar(c: char): char {
    if Upper(c) then (c as int + 32) as char else c
  }

  function Fold(s: string): (r: string)
    ensures |r| == |s| && forall i :: 0 <= i < |s| ==> r[i] == FoldChar(s[i])
  {
    seq(|s|, i requires 0 <= i < |s| => FoldChar(s[i]))
  }

  function LowerByte(b: Byte): Byte {
    if 'A' as int <= b <= 'Z' as int then b + 32 else b
  }

  function Lower(v: Bytes): (r: Bytes)
    ensures |r| == |v| && forall i :: 0 <= i < |v| ==> r[i] == LowerByte(v[i])
  {
    seq(|v|, i requires 0 <= i < |v| => LowerByte(v[i]))
  }

  lemma HexReads(n: nat)
    requires n < 16
    ensures HexValue(Hex(n)) == Some(n) && HexValue(FoldChar(Hex(n))) == Some(n)
  {
  }

  lemma DecodeHex(s: string, b: Byte)
    requires 3 <= |s| && s[0] == '%'
    requires HexValue(s[1]) == Some(b / 16) && HexValue(s[2]) == Some(b % 16) && Decode(s[3..]).Some?
    ensures Decode(s) == Some([b] + Decode(s[3..]).value)
  {
  }

  lemma {:induction false} DecodeEncode(v: Bytes)
    ensures Decode(Encode(v)) == Some(v)
  {
    if v != [] {
      DecodeEncode(v[1..]);
      var s, head := Encode(v), EncodeByte(v[0]);
      assert s[|head|..] == Encode(v[1..]);
      assert s[0] == head[0];
      if !Safe(v[0]) {
        assert s[1] == head[1] && s[2] == head[2];
        HexReads(v[0] / 16);
        HexReads(v[0] % 16);
        DecodeHex(s, v[0]);
      }
      assert v == [v[0]] + v[1..];
    }
  }

  /** Folded, a component still reads back, to the name in lower case. */
  lemma {:induction false} DecodeFolded(v: Bytes)
    ensures Decode(Fold(Encode(v))) == Some(Lower(v))
  {
    if v != [] {
      DecodeFolded(v[1..]);
      var s, head := Fold(Encode(v)), EncodeByte(v[0]);
      assert s[|head|..] == Fold(Encode(v[1..]));
      assert s[0] == FoldChar(head[0]);
      assert Lower(v) == [LowerByte(v[0])] + Lower(v[1..]);
      if !Safe(v[0]) {
        assert s[1] == FoldChar(head[1]) && s[2] == FoldChar(head[2]);
        HexReads(v[0] / 16);
        HexReads(v[0] % 16);
        DecodeHex(s, v[0]);
      }
    }
  }

  // ------------------------------------------------------------- reserved stems

  /** A stem Windows resolves as a device, whatever its case: CON, PRN, AUX, NUL, COM0 to COM9, LPT0 to LPT9. */
  predicate Device(stem: string) {
    var folded := Fold(stem);
    || folded == "con" || folded == "prn" || folded == "aux" || folded == "nul"
    || (|folded| == 4 && (folded[..3] == "com" || folded[..3] == "lpt") && Digit(folded[3]))
  }

  /** Percent-encodes the first byte of a device stem. */
  function EscapeReserved(encoded: string): string {
    if !Device(encoded) then encoded
    else
      DevicesArePlain(encoded);
      ['%', Hex(encoded[0] as int / 16), Hex(encoded[0] as int % 16)] + encoded[1..]
  }

  lemma DevicesArePlain(stem: string)
    requires Device(stem)
    ensures |stem| >= 3 && forall i :: 0 <= i < |stem| ==> Plain(stem[i])
  {
    var folded := Fold(stem);
    if |folded| == 4 {
      assert folded[0] == folded[..3][0] && folded[1] == folded[..3][1] && folded[2] == folded[..3][2];
    }
    forall i | 0 <= i < |stem| ensures Plain(stem[i]) {
      assert LowerCase(folded[i]) || Digit(folded[i]);
    }
  }

  /** An encoded name whose first character is plain begins with that very byte. */
  lemma PlainHead(v: Bytes)
    requires v != [] && Plain(Encode(v)[0])
    ensures Safe(v[0]) && Encode(v)[0] as int == v[0] && Encode(v)[1..] == Encode(v[1..])
  {
  }

  /** The escape takes nothing from the name. */
  lemma DecodeEscaped(v: Bytes)
    ensures Decode(EscapeReserved(Encode(v))) == Some(v)
  {
    var e := Encode(v);
    DecodeEncode(v);
    if Device(e) {
      DevicesArePlain(e);
      PlainHead(v);
      DecodeEncode(v[1..]);
      var s := EscapeReserved(e);
      assert s[3..] == Encode(v[1..]);
      HexReads(v[0] / 16);
      HexReads(v[0] % 16);
      DecodeHex(s, v[0]);
      assert v == [v[0]] + v[1..];
    }
  }

  lemma DecodeEscapedFolded(v: Bytes)
    ensures Decode(Fold(EscapeReserved(Encode(v)))).Some?
    ensures Lower(Decode(Fold(EscapeReserved(Encode(v)))).value) == Lower(v)
  {
    if Device(Encode(v)) {
      DecodeDeviceFolded(v);
      LowerCons(v[0], v[1..]);
    } else {
      DecodeFolded(v);
      LowerTwice(v);
    }
  }

  lemma DecodeDeviceFolded(v: Bytes)
    requires Device(Encode(v))
    ensures v != [] && Decode(Fold(EscapeReserved(Encode(v)))) == Some([v[0]] + Lower(v[1..]))
  {
    DevicesArePlain(Encode(v));
    PlainHead(v);
    DecodeHexFolded(v[0], v[1..]);
  }

  lemma DecodeHexFolded(b: Byte, rest: Bytes)
    ensures Decode(Fold(['%', Hex(b / 16), Hex(b % 16)] + Encode(rest))) == Some([b] + Lower(rest))
  {
    DecodeFolded(rest);
    var s := Fold(['%', Hex(b / 16), Hex(b % 16)] + Encode(rest));
    assert s[3..] == Fold(Encode(rest));
    HexReads(b / 16);
    HexReads(b % 16);
    DecodeHex(s, b);
  }

  lemma LowerCons(b: Byte, rest: Bytes)
    ensures Lower([b] + Lower(rest)) == Lower([b] + rest)
  {
    LowerTwice(rest);
  }

  lemma LowerTwice(v: Bytes)
    ensures Lower(Lower(v)) == Lower(v)
  {
  }

  lemma DevicesStartPlain(stem: string)
    requires stem != "" && !Plain(stem[0])
    ensures !Device(stem)
  {
    if Device(stem) { DevicesArePlain(stem); }
  }

  /** Device stems never lead a generated name. */
  lemma NeverADevice(v: Bytes)
    ensures !Device(EscapeReserved(Encode(v)))
  {
    if Device(Encode(v)) {
      DevicesStartPlain(EscapeReserved(Encode(v)));
    }
  }

  // ---------------------------------------------------------------- whole names

  /** What one file at the top of the directory declares. */
  datatype What = TableFile | TypeFile | ModuleFile(kind: ModuleKind)

  function KindWord(kind: ModuleKind): string {
    match kind
    case View => "view"
    case Procedure => "procedure"
    case Function => "function"
    case Trigger => "trigger"
  }

  /** What follows the two encoded names and their dots. */
  function Tail(what: What): string {
    match what
    case TableFile => "yml"
    case TypeFile => "type.yml"
    case ModuleFile(kind) => KindWord(kind) + ".yml"
  }

  function ReadableName(schema: Bytes, name: Bytes, what: What): string {
    EscapeReserved(Encode(schema)) + "." + (Encode(name) + "." + Tail(what))
  }

  const LONGEST: nat := 240

  function Ascii(s: string): (r: Bytes)
    requires forall i :: 0 <= i < |s| ==> s[i] as int < 256
    ensures |r| == |s| && forall i :: 0 <= i < |s| ==> r[i] == s[i] as int
  {
    seq(|s|, i requires 0 <= i < |s| => s[i] as int)
  }

  function KindBytes(kind: Option<ModuleKind>): Bytes {
    Ascii(if kind.Some? then KindWord(kind.value) else "table")
  }

  /** What the long form hashes; a table says so in place of a module's kind. */
  function Preimage(schema: Bytes, name: Bytes, kind: Option<ModuleKind>): Bytes {
    schema + [0] + (name + [0] + KindBytes(kind))
  }

  function WhatOf(kind: Option<ModuleKind>): What {
    if kind.Some? then ModuleFile(kind.value) else TableFile
  }

  /** `digest` is a hexadecimal SHA-256. */
  function FileName(digest: Bytes -> string, schema: Bytes, name: Bytes, kind: Option<ModuleKind>): string {
    var readable := ReadableName(schema, name, WhatOf(kind));
    if |readable| <= LONGEST then readable
    else "~pbps-" + digest(Preimage(schema, name, kind)) + "." + Tail(WhatOf(kind))
  }

  /** A digest is 64 hexadecimal digits. */
  predicate IsDigest(s: string) {
    |s| == 64 && forall i :: 0 <= i < |s| ==> Digit(s[i]) || 'a' <= s[i] <= 'f'
  }

  // ------------------------------------------------------------------ alphabets

  predicate EncodedChar(c: char) {
    Plain(c) || c == '%'
  }

  lemma {:induction false} EncodeAlphabet(v: Bytes)
    ensures forall i :: 0 <= i < |Encode(v)| ==> EncodedChar(Encode(v)[i])
  {
    if v != [] {
      EncodeAlphabet(v[1..]);
      var head := EncodeByte(v[0]);
      if !Safe(v[0]) {
        HexPlain(v[0] / 16);
        HexPlain(v[0] % 16);
      }
      assert forall i :: 0 <= i < |head| ==> EncodedChar(head[i]);
    }
  }

  lemma HexPlain(n: nat)
    requires n < 16
    ensures Plain(Hex(n))
  {
  }

  lemma EscapeAlphabet(v: Bytes)
    ensures forall i :: 0 <= i < |EscapeReserved(Encode(v))| ==> EncodedChar(EscapeReserved(Encode(v))[i])
  {
    EncodeAlphabet(v);
    if Device(Encode(v)) {
      DevicesArePlain(Encode(v));
      HexPlain(Encode(v)[0] as int / 16);
      HexPlain(Encode(v)[0] as int % 16);
    }
  }

  predicate NoDot(s: string) {
    forall i :: 0 <= i < |s| ==> s[i] != '.'
  }

  lemma ComponentsHaveNoDot(v: Bytes)
    ensures NoDot(Encode(v)) && NoDot(EscapeReserved(Encode(v)))
    ensures NoDot(Fold(Encode(v))) && NoDot(Fold(EscapeReserved(Encode(v))))
  {
    EncodeAlphabet(v);
    EscapeAlphabet(v);
  }

  /** A dot splits a name in one place only when neither first part holds one. */
  lemma {:induction false} SplitAtDot(a: string, x: string, b: string, y: string)
    requires a + "." + x == b + "." + y && NoDot(a) && NoDot(b)
    ensures a == b && x == y
  {
    var s, t := a + "." + x, b + "." + y;
    assert s[0] == (if a == "" then '.' else a[0]);
    assert t[0] == (if b == "" then '.' else b[0]);
    if a == "" {
      assert s[1..] == x && t[1..] == y;
    } else {
      assert s[1..] == a[1..] + "." + x && t[1..] == b[1..] + "." + y;
      SplitAtDot(a[1..], x, b[1..], y);
    }
  }

  lemma TailTells(a: What, b: What)
    requires Tail(a) == Tail(b)
    ensures a == b
  {
    assert |Tail(TableFile)| == 3 && |Tail(TypeFile)| == 8 && |Tail(ModuleFile(View))| == 8;
    assert |Tail(ModuleFile(Procedure))| == 13 && |Tail(ModuleFile(Function))| == 12;
    assert |Tail(ModuleFile(Trigger))| == 11;
    assert Tail(TypeFile)[0] == 't' && Tail(ModuleFile(View))[0] == 'v';
  }

  lemma FoldTail(what: What)
    ensures Fold(Tail(what)) == Tail(what)
  {
    var s := Tail(what);
    assert forall i :: 0 <= i < |s| ==> !Upper(s[i]);
    assert Fold(s) == s;
  }

  // ------------------------------------------------------------- one name a file

  /** The readable form gives its three parts back. */
  lemma ReadableTells(s1: Bytes, n1: Bytes, w1: What, s2: Bytes, n2: Bytes, w2: What)
    requires ReadableName(s1, n1, w1) == ReadableName(s2, n2, w2)
    ensures s1 == s2 && n1 == n2 && w1 == w2
  {
    ComponentsHaveNoDot(s1);
    ComponentsHaveNoDot(s2);
    ComponentsHaveNoDot(n1);
    ComponentsHaveNoDot(n2);
    SplitAtDot(EscapeReserved(Encode(s1)), Encode(n1) + "." + Tail(w1), EscapeReserved(Encode(s2)),
               Encode(n2) + "." + Tail(w2));
    SplitAtDot(Encode(n1), Tail(w1), Encode(n2), Tail(w2));
    TailTells(w1, w2);
    EncodingTells(s1, s2);
    EncodingTells(n1, n2);
  }

  lemma EncodingTells(a: Bytes, b: Bytes)
    ensures Encode(a) == Encode(b) ==> a == b
    ensures EscapeReserved(Encode(a)) == EscapeReserved(Encode(b)) ==> a == b
    ensures Fold(Encode(a)) == Fold(Encode(b)) ==> Lower(a) == Lower(b)
    ensures Fold(EscapeReserved(Encode(a))) == Fold(EscapeReserved(Encode(b))) ==> Lower(a) == Lower(b)
  {
    DecodeEncode(a);
    DecodeEncode(b);
    DecodeEscaped(a);
    DecodeEscaped(b);
    DecodeFolded(a);
    DecodeFolded(b);
    DecodeEscapedFolded(a);
    DecodeEscapedFolded(b);
  }

  /** Two readable names meet under case folding only when what they name differs in case alone. */
  lemma FoldedReadableTells(s1: Bytes, n1: Bytes, w1: What, s2: Bytes, n2: Bytes, w2: What)
    requires Fold(ReadableName(s1, n1, w1)) == Fold(ReadableName(s2, n2, w2))
    ensures Lower(s1) == Lower(s2) && Lower(n1) == Lower(n2) && w1 == w2
  {
    FoldedParts(s1, n1, w1);
    FoldedParts(s2, n2, w2);
    ComponentsHaveNoDot(s1);
    ComponentsHaveNoDot(s2);
    ComponentsHaveNoDot(n1);
    ComponentsHaveNoDot(n2);
    var a, b := Fold(EscapeReserved(Encode(s1))), Fold(EscapeReserved(Encode(s2)));
    var x, y := Fold(Encode(n1)), Fold(Encode(n2));
    SplitAtDot(a, x + "." + Tail(w1), b, y + "." + Tail(w2));
    SplitAtDot(x, Tail(w1), y, Tail(w2));
    TailTells(w1, w2);
    EncodingTells(s1, s2);
    EncodingTells(n1, n2);
  }

  lemma FoldedParts(schema: Bytes, name: Bytes, what: What)
    ensures Fold(ReadableName(schema, name, what))
      == Fold(EscapeReserved(Encode(schema))) + "." + (Fold(Encode(name)) + "." + Tail(what))
  {
    FoldDotted(EscapeReserved(Encode(schema)), Encode(name) + "." + Tail(what));
    FoldDotted(Encode(name), Tail(what));
    FoldTail(what);
  }

  lemma FoldDotted(a: string, b: string)
    ensures Fold(a + "." + b) == Fold(a) + "." + Fold(b)
  {
  }

  predicate NoNul(v: Bytes) {
    0 !in v
  }

  lemma {:induction false} SplitAtNul(a: Bytes, x: Bytes, b: Bytes, y: Bytes)
    requires a + [0] + x == b + [0] + y && NoNul(a) && NoNul(b)
    ensures a == b && x == y
  {
    var s, t := a + [0] + x, b + [0] + y;
    assert s[0] == (if a == [] then 0 else a[0]);
    assert t[0] == (if b == [] then 0 else b[0]);
    if a == [] {
      assert s[1..] == x && t[1..] == y;
    } else {
      assert s[1..] == a[1..] + [0] + x && t[1..] == b[1..] + [0] + y;
      SplitAtNul(a[1..], x, b[1..], y);
    }
  }

  lemma KindBytesTell(a: Option<ModuleKind>, b: Option<ModuleKind>)
    requires KindBytes(a) == KindBytes(b)
    ensures a == b
  {
    assert |KindBytes(a)| == |KindBytes(b)|;
    assert |KindWord(View)| == 4 && |KindWord(Procedure)| == 9 && |KindWord(Function)| == 8;
    assert |KindWord(Trigger)| == 7 && |"table"| == 5;
  }

  /** On names without NUL, what is hashed tells what is named. */
  lemma PreimageTells(s1: Bytes, n1: Bytes, k1: Option<ModuleKind>, s2: Bytes, n2: Bytes, k2: Option<ModuleKind>)
    requires NoNul(s1) && NoNul(n1) && NoNul(s2) && NoNul(n2)
    requires Preimage(s1, n1, k1) == Preimage(s2, n2, k2)
    ensures s1 == s2 && n1 == n2 && k1 == k2
  {
    SplitAtNul(s1, n1 + [0] + KindBytes(k1), s2, n2 + [0] + KindBytes(k2));
    SplitAtNul(n1, KindBytes(k1), n2, KindBytes(k2));
    KindBytesTell(k1, k2);
  }

  /** The hashed namespace starts with a character no readable name starts with. */
  lemma NeverHashed(schema: Bytes, name: Bytes, what: What)
    ensures ReadableName(schema, name, what)[0] != '~'
  {
    EscapeAlphabet(schema);
    var e := EscapeReserved(Encode(schema));
    var s := ReadableName(schema, name, what);
    assert s[0] == if e == "" then '.' else e[0];
  }

  /** The two long names of a pair collide only if the digest does. */
  predicate NoCollision(digest: Bytes -> string, a: Bytes, b: Bytes) {
    IsDigest(digest(a)) && IsDigest(digest(b)) && (digest(a) == digest(b) ==> a == b)
  }

  lemma LongTells(d1: string, w1: What, d2: string, w2: What)
    requires IsDigest(d1) && IsDigest(d2)
    requires "~pbps-" + d1 + "." + Tail(w1) == "~pbps-" + d2 + "." + Tail(w2)
    ensures d1 == d2
  {
    var s, t := "~pbps-" + d1 + "." + Tail(w1), "~pbps-" + d2 + "." + Tail(w2);
    assert s[6..70] == d1 && t[6..70] == d2;
  }

  /** Different declarations of different names get different files. */
  lemma FileNameInjective(digest: Bytes -> string, s1: Bytes, n1: Bytes, k1: Option<ModuleKind>,
                          s2: Bytes, n2: Bytes, k2: Option<ModuleKind>)
    requires NoNul(s1) && NoNul(n1) && NoNul(s2) && NoNul(n2)
    requires NoCollision(digest, Preimage(s1, n1, k1), Preimage(s2, n2, k2))
    requires FileName(digest, s1, n1, k1) == FileName(digest, s2, n2, k2)
    ensures s1 == s2 && n1 == n2 && k1 == k2
  {
    var r1, r2 := ReadableName(s1, n1, WhatOf(k1)), ReadableName(s2, n2, WhatOf(k2));
    NeverHashed(s1, n1, WhatOf(k1));
    NeverHashed(s2, n2, WhatOf(k2));
    var f1, f2 := FileName(digest, s1, n1, k1), FileName(digest, s2, n2, k2);
    assert |r1| > LONGEST ==> f1[0] == '~';
    assert |r2| > LONGEST ==> f2[0] == '~';
    if |r1| <= LONGEST {
      ReadableTells(s1, n1, WhatOf(k1), s2, n2, WhatOf(k2));
    } else {
      LongTells(digest(Preimage(s1, n1, k1)), WhatOf(k1), digest(Preimage(s2, n2, k2)), WhatOf(k2));
      PreimageTells(s1, n1, k1, s2, n2, k2);
    }
  }

  /** No separator, no NUL: nothing a path reads as more than one component. */
  predicate Tame(s: string) {
    forall i :: 0 <= i < |s| ==> EncodedChar(s[i]) || s[i] == '.' || s[i] == '~'
  }

  lemma TameJoin(a: string, b: string)
    requires Tame(a) && Tame(b)
    ensures Tame(a + "." + b)
  {
  }

  lemma ReadableTame(schema: Bytes, name: Bytes, what: What)
    ensures Tame(ReadableName(schema, name, what)) && |ReadableName(schema, name, what)| > 3
  {
    TailAlphabet(what);
    EscapeAlphabet(schema);
    EncodeAlphabet(name);
    TameJoin(Encode(name), Tail(what));
    TameJoin(EscapeReserved(Encode(schema)), Encode(name) + "." + Tail(what));
  }

  lemma HashedTame(d: string, what: What)
    requires IsDigest(d)
    ensures var f := "~pbps-" + d + "." + Tail(what); Tame(f) && 3 < |f| <= LONGEST
  {
    TailAlphabet(what);
    TameJoin("~pbps-" + d, Tail(what));
  }

  lemma TameHasNoSeparator(s: string)
    requires Tame(s)
    ensures '/' !in s && '\\' !in s
  {
  }

  /** A generated name is one path component, short enough for any file system. */
  lemma FileNameIsComponent(digest: Bytes -> string, schema: Bytes, name: Bytes, kind: Option<ModuleKind>)
    requires IsDigest(digest(Preimage(schema, name, kind)))
    ensures var f := FileName(digest, schema, name, kind);
      3 < |f| <= LONGEST && Tame(f) && '/' !in f && '\\' !in f
  {
    ReadableTame(schema, name, WhatOf(kind));
    HashedTame(digest(Preimage(schema, name, kind)), WhatOf(kind));
    TameHasNoSeparator(FileName(digest, schema, name, kind));
  }

  lemma TailAlphabet(what: What)
    ensures 3 <= |Tail(what)| <= 13
    ensures forall i :: 0 <= i < |Tail(what)| ==> LowerCase(Tail(what)[i]) || Tail(what)[i] == '.'
  {
  }

  // ------------------------------------------------------------------ the paths

  /** A module's whole identity, in bytes. */
  datatype ModuleName =
    | NamedModule(schema: Bytes, name: Bytes)
    | RoutineModule(schema: Bytes, name: Bytes, args: seq<Bytes>)
    | TriggerModule(schema: Bytes, table: Bytes, name: Bytes)

  datatype Declaration =
    | Extension(name: Bytes)
    | UserType(schema: Bytes, name: Bytes, spelled: Bytes)
    | Table(schema: Bytes, name: Bytes, partition: bool)
    | Module(id: ModuleName, kind: ModuleKind)
    | Role(name: Bytes)

  const DOT: Byte := 46
  const COMMA: Byte := 44
  const OPEN: Byte := 40
  const CLOSE: Byte := 41

  function JoinBytes(parts: seq<Bytes>): Bytes {
    if parts == [] then [] else if |parts| == 1 then parts[0] else parts[0] + [COMMA] + JoinBytes(parts[1..])
  }

  function Stem(id: ModuleName): Bytes {
    match id
    case NamedModule(_, name) => name
    case RoutineModule(_, name, args) => name + [OPEN] + JoinBytes(args) + [CLOSE]
    case TriggerModule(_, table, name) => table + [DOT] + name
  }

  function OrHashed(digest: Bytes -> string, readable: string, preimage: Bytes, suffix: string): string {
    if |readable| <= LONGEST then readable else "~pbps-" + digest(preimage) + suffix
  }

  /** The file of a declaration, relative to the declaration directory. */
  function PathOf(digest: Bytes -> string, d: Declaration): string {
    match d
    case Extension(name) => "extensions/" + EscapeReserved(Encode(name)) + ".yml"
    case Role(name) =>
      "roles/" + OrHashed(digest, EscapeReserved(Encode(name)) + ".yml", name + [0] + Ascii("role"), ".yml")
    case UserType(schema, name, spelled) =>
      OrHashed(digest, ReadableName(schema, name, TypeFile), spelled + [0] + Ascii("type"), ".type.yml")
    case Table(schema, name, _) => FileName(digest, schema, name, None)
    case Module(id, kind) => FileName(digest, id.schema, Stem(id), Some(kind))
  }

  /** A partition is written in its parent's file. */
  predicate HasFile(d: Declaration) {
    !(d.Table? && d.partition)
  }

  function Filed(schema: seq<Declaration>): seq<Declaration> {
    if schema == [] then []
    else (if HasFile(schema[0]) then [schema[0]] else []) + Filed(schema[1..])
  }

  lemma {:induction false} AllFiled(schema: seq<Declaration>, d: Declaration)
    requires d in schema && !(d.Table? && d.partition)
    ensures d in Filed(schema)
  {
    if d != schema[0] { AllFiled(schema[1..], d); }
  }

  lemma FiledStep(schema: seq<Declaration>, at: nat)
    requires at < |schema|
    ensures Filed(schema[at..]) == (if HasFile(schema[at]) then [schema[at]] else []) + Filed(schema[at + 1..])
  {
    assert schema[at..][0] == schema[at] && schema[at..][1..] == schema[at + 1..];
  }

  /** Each declaration with a file of its own, beside what `path` gives for it. */
  method PairUp(path: Declaration -> string, schema: seq<Declaration>) returns (out: seq<(Declaration, string)>)
    ensures |out| == |Filed(schema)|
    ensures forall i :: 0 <= i < |out| ==> out[i] == (Filed(schema)[i], path(Filed(schema)[i]))
  {
    out := [];
    ghost var done := [];
    var at := 0;
    assert schema[0..] == schema;
    while at < |schema|
      invariant at <= |schema|
      invariant Filed(schema) == done + Filed(schema[at..])
      invariant |out| == |done| && forall i :: 0 <= i < |out| ==> out[i] == (done[i], path(done[i]))
    {
      FiledStep(schema, at);
      if HasFile(schema[at]) {
        out := out + [(schema[at], path(schema[at]))];
        done := done + [schema[at]];
      }
      at := at + 1;
    }
    assert schema[at..] == [];
  }

  method PathsOf(digest: Bytes -> string, schema: seq<Declaration>) returns (out: seq<(Declaration, string)>)
    ensures |out| == |Filed(schema)|
    ensures forall i :: 0 <= i < |out| ==> out[i] == (Filed(schema)[i], PathOf(digest, Filed(schema)[i]))
  {
    out := PairUp(d => PathOf(digest, d), schema);
  }

  /** No two of the paths are one file where case does not count. */
  predicate Apart(paths: seq<(Declaration, string)>) {
    forall i, j :: 0 <= i < j < |paths| ==> Fold(paths[i].1) != Fold(paths[j].1)
  }

  /** The keys that occur more than once. */
  method Repeated(keys: seq<string>) returns (repeated: set<string>)
    ensures forall f :: f in repeated <==> exists i, j :: 0 <= i < j < |keys| && keys[i] == f && keys[j] == f
  {
    var groups: set<string> := {};
    repeated := {};
    for at := 0 to |keys|
      invariant forall f :: f in groups <==> exists i :: 0 <= i < at && keys[i] == f
      invariant forall f :: f in repeated <==> exists i, j :: 0 <= i < j < at && keys[i] == f && keys[j] == f
    {
      if keys[at] in groups { repeated := repeated + {keys[at]}; }
      groups := groups + {keys[at]};
    }
  }

  /** Groups the paths by their folded spelling and accepts only groups of one. */
  method RefuseFoldedPaths(paths: seq<(Declaration, string)>) returns (clashing: set<string>)
    ensures clashing == {} <==> Apart(paths)
    ensures forall f :: f in clashing <==>
      exists i, j :: 0 <= i < j < |paths| && Fold(paths[i].1) == f && Fold(paths[j].1) == f
  {
    var keys := seq(|paths|, i requires 0 <= i < |paths| => Fold(paths[i].1));
    clashing := Repeated(keys);
    forall f ensures f in clashing <==>
      exists i, j :: 0 <= i < j < |paths| && Fold(paths[i].1) == f && Fold(paths[j].1) == f
    {
      assert forall i :: 0 <= i < |paths| ==> keys[i] == Fold(paths[i].1);
    }
    if !Apart(paths) {
      var i, j :| 0 <= i < j < |paths| && Fold(paths[i].1) == Fold(paths[j].1);
      assert Fold(paths[i].1) in clashing;
    }
  }

  /** A directory on a file system that ignores case: one file a folded path. */
  type Directory = map<string, Declaration>

  /** The key at `i` holds the declaration at `i`. */
  predicate Holds(files: Directory, keys: seq<string>, decls: seq<Declaration>) {
    |keys| == |decls| && forall i :: 0 <= i < |keys| ==> keys[i] in files && files[keys[i]] == decls[i]
  }

  /** `files` has exactly the first `n` keys, with their declarations. */
  ghost predicate Written(files: Directory, keys: seq<string>, decls: seq<Declaration>, n: nat)
    requires |keys| == |decls| && n <= |keys|
  {
    && |files| == n
    && (forall i :: 0 <= i < n ==> keys[i] in files && files[keys[i]] == decls[i])
    && (forall f :: f in files ==> exists i :: 0 <= i < n && keys[i] == f)
  }

  method WriteFiles(keys: seq<string>, decls: seq<Declaration>) returns (files: Directory)
    requires |keys| == |decls| && forall i, j :: 0 <= i < j < |keys| ==> keys[i] != keys[j]
    ensures |files| == |keys| && Holds(files, keys, decls)
  {
    files := map[];
    for at := 0 to |keys|
      invariant Written(files, keys, decls, at)
    {
      assert keys[at] !in files;
      files := files[keys[at] := decls[at]];
    }
  }

  /** No two declarations with files of their own have one file where case does not count. */
  predicate Separate(digest: Bytes -> string, filed: seq<Declaration>) {
    forall i, j :: 0 <= i < j < |filed| ==> Fold(PathOf(digest, filed[i])) != Fold(PathOf(digest, filed[j]))
  }

  /** The directory holds each declaration in the file it belongs in. */
  predicate Keeps(digest: Bytes -> string, files: Directory, filed: seq<Declaration>) {
    forall i :: 0 <= i < |filed| ==>
      Fold(PathOf(digest, filed[i])) in files && files[Fold(PathOf(digest, filed[i]))] == filed[i]
  }

  /** Writes every declaration to its file, or nothing: none is written over another. */
  method WriteDeclarations(digest: Bytes -> string, schema: seq<Declaration>) returns (written: Option<Directory>)
    ensures written.Some? <==> Separate(digest, Filed(schema))
    ensures written.Some? ==> |written.value| == |Filed(schema)| && Keeps(digest, written.value, Filed(schema))
    ensures (written.Some? ==>
               forall d :: d in schema && !(d.Table? && d.partition) ==>
                 var file := Fold(PathOf(digest, d)); file in written.value && written.value[file] == d)
  {
    var paths := PathsOf(digest, schema);
    var clashing := RefuseFoldedPaths(paths);
    PathsAgree(digest, Filed(schema), paths);
    if clashing != {} { return None; }
    var keys := seq(|paths|, i requires 0 <= i < |paths| => Fold(paths[i].1));
    var decls := seq(|paths|, i requires 0 <= i < |paths| => paths[i].0);
    var files := WriteFiles(keys, decls);
    forall i | 0 <= i < |paths|
      ensures keys[i] == Fold(PathOf(digest, Filed(schema)[i])) && decls[i] == Filed(schema)[i]
    {
      assert paths[i] == (Filed(schema)[i], PathOf(digest, Filed(schema)[i]));
    }
    forall d | d in schema && !(d.Table? && d.partition) ensures d in Filed(schema) {
      AllFiled(schema, d);
    }
    return Some(files);
  }

  lemma PathsAgree(digest: Bytes -> string, filed: seq<Declaration>, paths: seq<(Declaration, string)>)
    requires |paths| == |filed|
    requires forall i :: 0 <= i < |paths| ==> paths[i] == (filed[i], PathOf(digest, filed[i]))
    ensures Apart(paths) <==> Separate(digest, filed)
  {
    if !Apart(paths) {
      var i, j :| 0 <= i < j < |paths| && Fold(paths[i].1) == Fold(paths[j].1);
      assert Fold(PathOf(digest, filed[i])) == Fold(PathOf(digest, filed[j]));
    }
    if !Separate(digest, filed) {
      var i, j :| 0 <= i < j < |filed| && Fold(PathOf(digest, filed[i])) == Fold(PathOf(digest, filed[j]));
      assert Fold(paths[i].1) == Fold(paths[j].1);
    }
  }

  // ------------------------------------------------- what only the refusal covers

  /** Two triggers of one schema share a file exactly when table and name join to the same dotted stem. */
  lemma TriggersShareStem(digest: Bytes -> string, schema: Bytes, t1: Bytes, n1: Bytes, t2: Bytes, n2: Bytes)
    requires NoNul(schema) && NoNul(t1) && NoNul(n1) && NoNul(t2) && NoNul(n2)
    requires NoCollision(digest, Preimage(schema, t1 + [DOT] + n1, Some(Trigger)),
                         Preimage(schema, t2 + [DOT] + n2, Some(Trigger)))
    ensures PathOf(digest, Module(TriggerModule(schema, t1, n1), Trigger))
         == PathOf(digest, Module(TriggerModule(schema, t2, n2), Trigger))
      <==> t1 + [DOT] + n1 == t2 + [DOT] + n2
  {
    var a, b := t1 + [DOT] + n1, t2 + [DOT] + n2;
    if FileName(digest, schema, a, Some(Trigger)) == FileName(digest, schema, b, Some(Trigger)) {
      FileNameInjective(digest, schema, a, Some(Trigger), schema, b, Some(Trigger));
    }
  }

  /** Such a pair exists: `a.b` with `c`, and `a` with `b.c`. The stem does not tell them apart. */
  lemma TriggersCollide(digest: Bytes -> string, schema: Bytes)
    ensures var first := Module(TriggerModule(schema, Ascii("a.b"), Ascii("c")), Trigger);
      var second := Module(TriggerModule(schema, Ascii("a"), Ascii("b.c")), Trigger);
      first != second && PathOf(digest, first) == PathOf(digest, second)
  {
    assert Ascii("a.b") + [DOT] + Ascii("c") == Ascii("a") + [DOT] + Ascii("b.c");
    assert |Ascii("a.b")| != |Ascii("a")|;
  }

  /** A hashed name is in lower case already. */
  lemma HashedFolds(d: string, what: What)
    requires IsDigest(d)
    ensures Fold("~pbps-" + d + "." + Tail(what)) == "~pbps-" + d + "." + Tail(what)
  {
    TailAlphabet(what);
    var prefix, f := "~pbps-", "~pbps-" + d + "." + Tail(what);
    assert forall i :: 0 <= i < |prefix| ==> FoldChar(prefix[i]) == prefix[i];
    forall i | 0 <= i < |f| ensures FoldChar(f[i]) == f[i] {
      if 6 <= i < 70 { assert f[i] == d[i - 6]; }
      if 71 <= i { assert f[i] == Tail(what)[i - 71]; }
    }
  }

  /** Tables and modules are refused only over a difference in case, readable or hashed. */
  lemma RefusedOnlyForCase(digest: Bytes -> string, s1: Bytes, n1: Bytes, k1: Option<ModuleKind>,
                           s2: Bytes, n2: Bytes, k2: Option<ModuleKind>)
    requires NoNul(s1) && NoNul(n1) && NoNul(s2) && NoNul(n2)
    requires NoCollision(digest, Preimage(s1, n1, k1), Preimage(s2, n2, k2))
    requires Fold(FileName(digest, s1, n1, k1)) == Fold(FileName(digest, s2, n2, k2))
    ensures Lower(s1) == Lower(s2) && Lower(n1) == Lower(n2) && k1 == k2
  {
    var f1, f2 := FileName(digest, s1, n1, k1), FileName(digest, s2, n2, k2);
    FirstTells(digest, s1, n1, k1);
    FirstTells(digest, s2, n2, k2);
    assert FoldChar(f1[0]) == FoldChar(f2[0]);
    if |ReadableName(s1, n1, WhatOf(k1))| <= LONGEST {
      FoldedReadableTells(s1, n1, WhatOf(k1), s2, n2, WhatOf(k2));
    } else {
      HashedFolds(digest(Preimage(s1, n1, k1)), WhatOf(k1));
      HashedFolds(digest(Preimage(s2, n2, k2)), WhatOf(k2));
      FileNameInjective(digest, s1, n1, k1, s2, n2, k2);
    }
  }

  /** The first character tells a hashed name from a readable one. */
  lemma FirstTells(digest: Bytes -> string, s: Bytes, n: Bytes, k: Option<ModuleKind>)
    ensures FileName(digest, s, n, k) != ""
    ensures FileName(digest, s, n, k)[0] == '~' <==> |ReadableName(s, n, WhatOf(k))| > LONGEST
  {
    NeverHashed(s, n, WhatOf(k));
  }
}

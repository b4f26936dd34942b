/**
 The image builder rewrites the first-stage fstab without its AVB flags; the device
 later parses the result. The two are written in different languages and meet only
 in the text.
 */
module AvbStrip {
  import opened Wrappers
  import opened Sequences
  import opened Text
  import opened FstabTypes
  import opened Fstab

  // ---------------------------------------------------------------------
  // The rewriting
  // ---------------------------------------------------------------------

  /** Characters that end a line for `splitlines`, after universal newlines. */
  predicate PyBreak(c: char) {
    c in {'\n', '\U{0B}', '\U{0C}', '\U{1C}', '\U{1D}', '\U{1E}', '\U{85}', '\U{2028}', '\U{2029}'}
  }

  /** Characters that separate words for `split()`. */
  predicate PySpace(c: char) {
    || PyBreak(c) || c == ' ' || c == '\t' || c == '\r' || c == '\U{1F}' || c == '\U{A0}'
    || c == '\U{1680}' || '\U{2000}' <= c <= '\U{200A}' || c == '\U{202F}' || c == '\U{205F}'
    || c == '\U{3000}'
  }

  function PyLinesFrom(s: string): seq<string>
    decreases |s|
  {
    var k := WordEnd(s, PyBreak);
    if k == |s| then (if s == "" then [] else [s]) else [s[..k]] + PyLinesFrom(s[k + 1..])
  }

  /** The flags the builder drops. */
  predicate Dropped(flag: string) {
    flag == "avb" || "avb=" <= flag || "avb_keys=" <= flag
  }

  function Kept(flags: seq<string>): seq<string> {
    if flags == [] then []
    else Kept(flags[..|flags| - 1]) + (if Dropped(flags[|flags| - 1]) then [] else [flags[|flags| - 1]])
  }

  function StripColumn(column: string): string {
    Join(Kept(Split(column, ',')), ',')
  }

  /** The choice of f2fs for userdata changes the third column of its line. */
  function SwapType(f2fs: bool, fields: seq<string>): (r: seq<string>)
    ensures |r| == |fields|
  {
    if f2fs && |fields| >= 5 && fields[1] == "/data" && EndsWith(fields[0], "userdata")
    then fields[2 := "f2fs"] else fields
  }

  function StripFields(f2fs: bool, fields: seq<string>): seq<string>
    requires |fields| >= 5
  {
    SwapType(f2fs, fields)[4 := StripColumn(fields[4])]
  }

  function StripLine(f2fs: bool, line: string): string {
    var fields := Tokens(line, PySpace);
    if Skipped(fields) || |fields| < 5 then line else Join(StripFields(f2fs, fields), ' ')
  }

  function StripLines(f2fs: bool, lines: seq<string>): (r: seq<string>)
    ensures |r| == |lines|
  {
    if lines == [] then []
    else StripLines(f2fs, lines[..|lines| - 1]) + [StripLine(f2fs, lines[|lines| - 1])]
  }

  function Strip(f2fs: bool, text: string): string {
    Join(StripLines(f2fs, PyLinesFrom(text)), '\n') + "\n"
  }

  method FilterFlags(column: string) returns (r: string)
    ensures r == StripColumn(column)
  {
    var parts, kept := Split(column, ','), [];
    for i := 0 to |parts|
      invariant kept == Kept(parts[..i])
    {
      assert parts[..i + 1][..i] == parts[..i];
      if !Dropped(parts[i]) {
        kept := kept + [parts[i]];
      }
    }
    assert parts[..|parts|] == parts;
    r := Join(kept, ',');
  }

  /** The builder's loop over the lines. */
  method StripFstab(f2fs: bool, text: string) returns (r: string)
    ensures r == Strip(f2fs, text)
  {
    var lines, out := PyLinesFrom(text), [];
    for i := 0 to |lines|
      invariant out == StripLines(f2fs, lines[..i])
    {
      assert lines[..i + 1][..i] == lines[..i];
      var line := lines[i];
      var fields := Tokens(line, PySpace);
      if !Skipped(fields) && |fields| >= 5 {
        var column := FilterFlags(fields[4]);
        fields := SwapType(f2fs, fields)[4 := column];
        line := Join(fields, ' ');
      }
      out := out + [line];
    }
    assert lines[..|lines|] == lines;
    r := Join(out, '\n') + "\n";
  }

  // ---------------------------------------------------------------------
  // What it should mean
  // ---------------------------------------------------------------------

  /** The entry with everything about AVB but the hashtree digest taken out. */
  function Clear(e: Entry): Entry {
    e.(fsMgrFlags := e.fsMgrFlags - {Avb}, vbmetaPartition := "", avbKeys := "")
  }

  function ClearAll(es: seq<Entry>): (r: seq<Entry>)
    ensures |r| == |es|
  {
    if es == [] then [] else ClearAll(es[..|es| - 1]) + [Clear(es[|es| - 1])]
  }

  function ClearParse(es: Option<seq<Entry>>): Option<seq<Entry>> {
    if es.None? then None else Some(ClearAll(es.value))
  }

  /** The parse of the text with only the file system of userdata chosen. */
  function ParseLinesAs(env: Env, f2fs: bool, lines: seq<string>): Option<seq<Entry>> {
    if lines == [] then Some([])
    else
      Collect(ParseLinesAs(env, f2fs, lines[..|lines| - 1]),
              ParseFields(env, SwapType(f2fs, Tokens(lines[|lines| - 1], Blank))))
  }

  function ParseAs(env: Env, f2fs: bool, text: string): Option<seq<Entry>> {
    OrFail(ParseLinesAs(env, f2fs, Split(text, '\n')))
  }

  /** Under the ext4 setting that is just the parse. */
  lemma {:induction false} Ext4IsPlainParse(env: Env, lines: seq<string>)
    ensures ParseLinesAs(env, false, lines) == ParseLines(env, lines)
  {
    hide ParseFields;
    if lines != [] {
      Ext4IsPlainParse(env, lines[..|lines| - 1]);
    }
  }

  /** A flag the builder keeps although the parser reads it as AVB. */
  predicate Stray(flag: string) {
    "avb" <= flag && !Dropped(flag) && !("avb_hashtree_digest=" <= flag)
  }

  predicate NoStray(flags: seq<string>) {
    forall i | 0 <= i < |flags| :: !Stray(flags[i])
  }

  // ---------------------------------------------------------------------
  // Flags
  // ---------------------------------------------------------------------

  /** The parser's flags that touch what Clear takes out. */
  predicate AboutAvb(f: Flag) {
    f == Simple(Avb) || f.AvbOf? || f.AvbKeys?
  }

  lemma Differ(p: string, s: string)
    requires p != "" && s != "" && p[0] != s[0]
    ensures !(p <= s)
  {
  }

  lemma Exclude(p: string, q: string, i: nat, s: string)
    requires i < |p| && i < |q| && p[i] != q[i]
    ensures !(p <= s && q <= s)
  {
  }

  lemma DigestIsKept(flag: string)
    requires "avb_hashtree_digest=" <= flag
    ensures !Dropped(flag)
  {
    Exclude("avb_hashtree_digest=", "avb=", 3, flag);
    Exclude("avb_hashtree_digest=", "avb_keys=", 4, flag);
  }

  lemma AvbPrefixes(flag: string)
    ensures ("avb=" <= flag || "avb_keys=" <= flag) ==> "avb" <= flag
  {
    assert "avb=" <= flag ==> flag[..3] == "avb=="[..3];
    assert "avb_keys=" <= flag ==> flag[..3] == "avb_keys="[..3];
  }

  lemma SimpleIsAvb(flag: string)
    ensures SimpleFlag(flag) == Some(Avb) <==> flag == "avb"
    ensures "avb" <= flag && flag != "avb" ==> SimpleFlag(flag) == None
  {
    if "avb" <= flag {
      assert flag[0] == 'a';
    }
  }

  function AvbArgFlag(flag: string): Flag {
    if "avb_keys=" <= flag then AvbKeys(Arg(flag))
    else if "avb_hashtree_digest=" <= flag then AvbHashtreeDigest(Arg(flag))
    else AvbOf(Arg(flag))
  }

  lemma ArgIsAvb(flag: string)
    requires "avb" <= flag
    ensures ArgFlag(flag) == AvbArgFlag(flag)
  {
    hide Arg;
    assert flag[0] == 'a';
    Differ("encryptable=", flag);
    Differ("forceencrypt=", flag);
    Differ("forcefdeorfbe=", flag);
    Differ("voldmanaged=", flag);
    Differ("length=", flag);
    Differ("swapprio=", flag);
    Differ("zramsize=", flag);
    Differ("fileencryption=", flag);
    Differ("max_comp_streams=", flag);
    Differ("reservedsize=", flag);
    Differ("readahead_size_kb=", flag);
    Differ("eraseblk=", flag);
    Differ("logicalblk=", flag);
    assert flag != "fileencryption";
  }

  lemma EarlyIsNotAvb(flag: string, arg: string)
    ensures EarlyArgFlag(flag, arg).Some? ==> !AboutAvb(EarlyArgFlag(flag, arg).value)
  {
  }

  lemma ArgIsNotAvb(flag: string)
    requires !("avb" <= flag)
    ensures !AboutAvb(ArgFlag(flag))
  {
    EarlyIsNotAvb(flag, Arg(flag));
    AvbPrefixes(flag);
    hide Arg, EarlyArgFlag;
  }

  /** The parser reads a flag as AVB exactly when the builder drops it or it is stray. */
  lemma FlagsAboutAvb(flag: string)
    ensures AboutAvb(Classify(flag)) <==> Dropped(flag) || Stray(flag)
    ensures Stray(flag) ==> Classify(flag).AvbOf?
  {
    hide SimpleFlag, ArgFlag, Arg;
    SimpleIsAvb(flag);
    if "avb" <= flag {
      assert flag[0] == 'a';
      ArgIsAvb(flag);
      if "avb_hashtree_digest=" <= flag {
        DigestIsKept(flag);
      }
    } else {
      ArgIsNotAvb(flag);
      AvbPrefixes(flag);
    }
  }

  function ClearEntry(e: Option<Entry>): Option<Entry> {
    if e.None? then None else Some(Clear(e.value))
  }

  lemma OtherBitsCommute(bits: set<FsMgrFlag>, bit: FsMgrFlag)
    requires bit != Avb
    ensures bits - {Avb} + {bit} == bits + {bit} - {Avb}
  {
  }

  /** A flag that is not about AVB does the same before and after clearing. */
  lemma OtherFlagsCommute(env: Env, e: Entry, f: Flag)
    requires !AboutAvb(f)
    ensures ApplyFlag(env, Clear(e), f) == ClearEntry(ApplyFlag(env, e, f))
  {
    hide ApplyFlag, Clear;
    if SetsBits(f) {
      BitsCommute(env, e, f);
    } else {
      ArgumentsCommute(env, e, f);
    }
  }

  predicate SetsBits(f: Flag) {
    f.Simple? || f.Encryptable? || f.FileEncryptionWith? || f.VoldManagedAs? || f.Device?
  }

  lemma BitsCommute(env: Env, e: Entry, f: Flag)
    requires !AboutAvb(f) && SetsBits(f)
    ensures ApplyFlag(env, Clear(e), f) == ClearEntry(ApplyFlag(env, e, f))
  {
    hide ParseVoldManaged, ParseUserDevices;
    match f {
      case Simple(bit) => OtherBitsCommute(e.fsMgrFlags, bit);
      case Encryptable => OtherBitsCommute(e.fsMgrFlags, Crypt);
      case FileEncryptionWith(_) => OtherBitsCommute(e.fsMgrFlags, FileEncryption);
      case VoldManagedAs(arg) => VoldManagedCommutes(env, e, arg);
      case Device(arg) => DevicesCommute(env, e, arg);
    }
  }

  lemma ArgumentsCommute(env: Env, e: Entry, f: Flag)
    requires !AboutAvb(f) && !SetsBits(f)
    ensures ApplyFlag(env, Clear(e), f) == ClearEntry(ApplyFlag(env, e, f))
  {
    hide BlockSize, ToOff, ParseVoldManaged, ParseUserDevices;
  }

  lemma VoldManagedCommutes(env: Env, e: Entry, arg: string)
    ensures ParseVoldManaged(env, Clear(e), arg) == Clear(ParseVoldManaged(env, e, arg))
  {
    hide Split;
    OtherBitsCommute(e.fsMgrFlags, VoldManaged);
  }

  lemma DevicesCommute(env: Env, e: Entry, arg: string)
    ensures ParseUserDevices(env, Clear(e), arg) == Clear(ParseUserDevices(env, e, arg))
  {
    hide Split, Join, Without;
    OtherBitsCommute(e.fsMgrFlags, IsZoned);
  }

  lemma AvbFlagsVanish(env: Env, e: Entry, f: Flag)
    requires AboutAvb(f)
    ensures ApplyFlag(env, e, f).Some? && Clear(ApplyFlag(env, e, f).value) == Clear(e)
  {
  }

  /** Dropping flags before the parse is clearing after it. */
  lemma {:induction false} KeptFlags(env: Env, e: Entry, flags: seq<string>)
    requires NoStray(flags)
    ensures ApplyFlags(env, Clear(e), Kept(flags)) == ClearEntry(ApplyFlags(env, e, flags))
  {
    hide ApplyFlag, Classify, Dropped, Stray, Clear, AboutAvb;
    if flags != [] {
      var init, last := flags[..|flags| - 1], flags[|flags| - 1];
      KeptFlags(env, e, init);
      FlagsAboutAvb(last);
      var before := ApplyFlags(env, e, init);
      if Dropped(last) {
        assert Kept(flags) == Kept(init);
        if before.Some? {
          AvbFlagsVanish(env, before.value, Classify(last));
        }
      } else {
        assert Kept(flags)[..|Kept(flags)| - 1] == Kept(init);
        if before.Some? {
          OtherFlagsCommute(env, before.value, Classify(last));
        }
      }
    }
  }

  /** Once the parser has set the AVB bit, no flag takes it away. */
  lemma AvbStays(env: Env, e: Entry, f: Flag)
    requires Avb in e.fsMgrFlags || f.AvbOf?
    ensures ApplyFlag(env, e, f).Some? ==> Avb in ApplyFlag(env, e, f).value.fsMgrFlags
  {
    hide Split, Join, Without, BlockSize, ToOff;
  }

  lemma {:induction false} StraySets(env: Env, e: Entry, flags: seq<string>, i: nat)
    requires i < |flags| && Stray(flags[i]) && ApplyFlags(env, e, Kept(flags)).Some?
    ensures Avb in ApplyFlags(env, e, Kept(flags)).value.fsMgrFlags
    decreases |flags|
  {
    hide ApplyFlag, Classify;
    var init, last := flags[..|flags| - 1], flags[|flags| - 1];
    if Dropped(last) {
      assert Kept(flags) == Kept(init) + [] == Kept(init);
      StraySets(env, e, init, i);
    } else {
      var kept := Kept(flags);
      assert kept[..|kept| - 1] == Kept(init) && kept[|kept| - 1] == last;
      var before := ApplyFlags(env, e, Kept(init)).value;
      if i == |flags| - 1 {
        FlagsAboutAvb(last);
      } else {
        StraySets(env, e, init, i);
      }
      AvbStays(env, before, Classify(last));
    }
  }

  // ---------------------------------------------------------------------
  // Columns
  // ---------------------------------------------------------------------

  lemma {:induction false} KeptIsFrom(flags: seq<string>, i: nat)
    requires i < |Kept(flags)|
    ensures Kept(flags)[i] in flags
    decreases |flags|
  {
    hide Dropped;
    var init := flags[..|flags| - 1];
    if i < |Kept(init)| {
      KeptIsFrom(init, i);
    }
  }

  /** A column that is not emptied splits into exactly the flags that were kept. */
  lemma ColumnSplits(column: string)
    requires StripColumn(column) != ""
    ensures Split(StripColumn(column), ',') == Kept(Split(column, ','))
  {
    var flags := Split(column, ',');
    var kept := Kept(flags);
    forall i | 0 <= i < |kept|
      ensures ',' !in kept[i]
    {
      KeptIsFrom(flags, i);
      var j :| 0 <= j < |flags| && flags[j] == kept[i];
      SplitPieces(column, ',', j);
    }
    hide Kept, Split;
    SplitOfJoin(kept, ',');
  }

  lemma ColumnChars(column: string, x: char)
    requires x in StripColumn(column) && x != ','
    ensures x in column
  {
    var flags := Split(column, ',');
    var kept := Kept(flags);
    hide Kept, Split, Join;
    JoinChars(kept, ',', x);
    var i :| 0 <= i < |kept| && x in kept[i];
    KeptIsFrom(flags, i);
    var j :| 0 <= j < |flags| && flags[j] == kept[i];
    SplitPieces(column, ',', j);
  }

  // ---------------------------------------------------------------------
  // Entries
  // ---------------------------------------------------------------------

  lemma {:induction false} MountFlagsAreClear(env: Env, e: Entry, flags: seq<string>)
    requires e == Clear(e)
    ensures MountFlags(env, e, flags) == Clear(MountFlags(env, e, flags))
    decreases |flags|
  {
    if flags != [] {
      var before := MountFlags(env, e, flags[..|flags| - 1]);
      MountFlagsAreClear(env, e, flags[..|flags| - 1]);
      hide Arg;
      assert MountFlag(env, before, flags[|flags| - 1]).fsMgrFlags == before.fsMgrFlags;
    }
  }

  lemma MountPartIsClear(env: Env, fields: seq<string>)
    requires |fields| >= 4
    ensures MountPart(env, fields) == Clear(MountPart(env, fields))
  {
    hide MountFlags, Split;
    var e := BLANK.(blkDevice := fields[0], mountPoint := fields[1], fsType := fields[2]);
    assert e == Clear(e);
    MountFlagsAreClear(env, e, Split(fields[3], ','));
  }

  lemma RejectedAlike(env: Env, e: Entry)
    ensures Rejected(env, Clear(e)) <==> Rejected(env, e)
    ensures NamedLogical(Clear(e)) == Clear(NamedLogical(e))
  {
  }

  function ClearLine(line: Line): Line {
    if line.Good? then Good(Clear(line.entry)) else line
  }

  /** What the builder may be given for one line. */
  predicate LineOk(fields: seq<string>) {
    Skipped(fields) || |fields| < 5 || (StripColumn(fields[4]) != "" && NoStray(Split(fields[4], ',')))
  }

  lemma KeptFields(env: Env, f2fs: bool, fields: seq<string>)
    requires |fields| >= 5 && fields[0] != ""
    ensures var r := StripFields(f2fs, fields);
            && |r| == |fields| && (Skipped(r) <==> Skipped(fields)) && r[4] == StripColumn(fields[4])
            && MountPart(env, r) == MountPart(env, SwapType(f2fs, fields))
            && SwapType(f2fs, fields)[4] == fields[4] && SwapType(f2fs, fields)[0] == fields[0]
  {
    hide StripColumn, MountFlags, EndsWith, Split;
  }

  /** What becomes of a line once its flags are parsed. */
  function LineOf(parsed: Option<Entry>): Line {
    if parsed.None? then Bad else Good(NamedLogical(parsed.value))
  }

  lemma LineByFlags(env: Env, fields: seq<string>)
    requires |fields| >= 5 && !Skipped(fields)
    ensures ParseFields(env, fields) == LineOf(FsMgrFlags(env, MountPart(env, fields), Split(fields[4], ',')))
  {
    hide FsMgrFlags, MountPart, Split, NamedLogical;
  }

  lemma FlagsCommute(env: Env, e: Entry, flags: seq<string>)
    requires e == Clear(e) && NoStray(flags)
    ensures LineOf(FsMgrFlags(env, e, Kept(flags))) == ClearLine(LineOf(FsMgrFlags(env, e, flags)))
  {
    hide ApplyFlags, Kept, NoStray, Clear, Rejected, NamedLogical;
    KeptFlags(env, e, flags);
    var parsed := ApplyFlags(env, e, flags);
    if parsed.Some? {
      RejectedAlike(env, parsed.value);
    }
  }

  /** One line: parsing the stripped columns is clearing the parsed columns. */
  lemma FieldsCommute(env: Env, f2fs: bool, fields: seq<string>)
    requires |fields| >= 5 && fields[0] != "" && !Skipped(fields) && LineOk(fields)
    ensures ParseFields(env, StripFields(f2fs, fields)) == ClearLine(ParseFields(env, SwapType(f2fs, fields)))
  {
    var column, swapped := fields[4], SwapType(f2fs, fields);
    assert StripColumn(column) != "" && NoStray(Split(column, ','));
    SkippedByFirst(swapped, fields);
    hide *;
    KeptFields(env, f2fs, fields);
    ColumnSplits(column);
    MountPartIsClear(env, swapped);
    FlagsCommute(env, MountPart(env, swapped), Split(column, ','));
    LineByFlags(env, StripFields(f2fs, fields));
    LineByFlags(env, swapped);
  }

  lemma SkippedByFirst(a: seq<string>, b: seq<string>)
    requires a != [] && b != [] && a[0] == b[0]
    ensures Skipped(a) <==> Skipped(b)
  {
  }

  lemma StrayShows(env: Env, f2fs: bool, fields: seq<string>, i: nat)
    requires |fields| >= 5 && fields[0] != "" && !Skipped(fields) && StripColumn(fields[4]) != ""
    requires i < |Split(fields[4], ',')| && Stray(Split(fields[4], ',')[i])
    ensures var line := ParseFields(env, StripFields(f2fs, fields));
            line.Good? ==> Avb in line.entry.fsMgrFlags
  {
    var column, r := fields[4], StripFields(f2fs, fields);
    hide *;
    KeptFields(env, f2fs, fields);
    ColumnSplits(column);
    LineByFlags(env, r);
    StrayInLine(env, MountPart(env, r), Split(column, ','), i);
  }

  lemma StrayInLine(env: Env, e: Entry, flags: seq<string>, i: nat)
    requires i < |flags| && Stray(flags[i])
    ensures var line := LineOf(FsMgrFlags(env, e, Kept(flags)));
            line.Good? ==> Avb in line.entry.fsMgrFlags
  {
    hide ApplyFlags, Kept, Stray, Rejected;
    if ApplyFlags(env, e, Kept(flags)).Some? {
      StraySets(env, e, flags, i);
    }
  }

  /** One line of five columns: the rewriting is harmless only if the line is ok. */
  lemma FieldsExact(env: Env, f2fs: bool, fields: seq<string>)
    requires |fields| == 5 && !Skipped(fields) && forall i | 0 <= i < 5 :: fields[i] != ""
    requires ParseFields(env, SwapType(f2fs, fields)).Good?
    requires (ParseFields(env, NonEmpty(StripFields(f2fs, fields)))
           == ClearLine(ParseFields(env, SwapType(f2fs, fields))))
    ensures LineOk(fields)
  {
    if StripColumn(fields[4]) == "" {
      EmptiedIsBad(env, f2fs, fields);
    } else if !NoStray(Split(fields[4], ',')) {
      var flags := Split(fields[4], ',');
      var i :| 0 <= i < |flags| && Stray(flags[i]);
      hide ParseFields, Stray, StripColumn, Split, StripFields, SwapType, NonEmpty, Skipped;
      StrippedIsWhole(f2fs, fields);
      StrayShows(env, f2fs, fields, i);
    }
  }

  lemma StrippedIsWhole(f2fs: bool, fields: seq<string>)
    requires |fields| >= 5 && StripColumn(fields[4]) != ""
    requires forall i | 0 <= i < |fields| :: fields[i] != ""
    ensures NonEmpty(StripFields(f2fs, fields)) == StripFields(f2fs, fields)
  {
    hide StripColumn, EndsWith;
    NonEmptyOfWords(StripFields(f2fs, fields));
  }

  /** A fifth column that becomes empty is gone: the line has too few fields. */
  lemma EmptiedIsBad(env: Env, f2fs: bool, fields: seq<string>)
    requires |fields| == 5 && StripColumn(fields[4]) == ""
    requires forall i | 0 <= i < 5 :: fields[i] != ""
    ensures !ParseFields(env, NonEmpty(StripFields(f2fs, fields))).Good?
  {
    hide StripColumn, EndsWith, NonEmpty, ParseEntry;
    NonEmptyWithHole(StripFields(f2fs, fields), 4);
  }

  // ---------------------------------------------------------------------
  // Lines
  // ---------------------------------------------------------------------

  /** Text whose only white space is blanks, tabs and newlines. */
  predicate Plain(s: string) {
    forall c | c in s :: PySpace(c) ==> c == ' ' || c == '\t' || c == '\n'
  }

  predicate PlainLine(line: string) {
    Plain(line) && '\n' !in line
  }

  predicate Gap(c: char) {
    Blank(c) || c == '\n'
  }

  /** On a line of plain text the two languages see the same columns. */
  lemma SameColumns(line: string)
    requires PlainLine(line)
    ensures Tokens(line, PySpace) == Tokens(line, Blank) == Tokens(line, Gap)
  {
    TokensAgree(line, PySpace, Blank);
    TokensAgree(line, Gap, Blank);
  }

  lemma StrippedFieldsAreFree(f2fs: bool, fields: seq<string>)
    requires |fields| >= 5 && AllFree(fields, Gap)
    ensures AllFree(StripFields(f2fs, fields), Gap)
  {
    var r := StripFields(f2fs, fields);
    forall i | 0 <= i < |r|
      ensures Free(r[i], Gap)
    {
      if i == 4 {
        ColumnIsFree(fields[4]);
      }
    }
  }

  lemma ColumnIsFree(column: string)
    requires Free(column, Gap)
    ensures Free(StripColumn(column), Gap)
  {
    var r := StripColumn(column);
    forall i | 0 <= i < |r|
      ensures !Gap(r[i])
    {
      if r[i] != ',' {
        ColumnChars(column, r[i]);
      }
    }
  }

  lemma TokensFree(line: string, p: char -> bool)
    ensures AllFree(Tokens(line, p), p) && forall i | 0 <= i < |Tokens(line, p)| :: Tokens(line, p)[i] != ""
  {
    var fields := Tokens(line, p);
    forall i | 0 <= i < |fields|
      ensures Free(fields[i], p) && fields[i] != ""
    {
      TokensAreWords(line, p, i);
    }
  }

  lemma {:induction false} JoinHasNoNewline(fields: seq<string>)
    requires AllFree(fields, Gap)
    ensures '\n' !in Join(fields, ' ')
  {
    if '\n' in Join(fields, ' ') {
      JoinChars(fields, ' ', '\n');
    }
  }

  lemma SameFree(fields: seq<string>)
    requires AllFree(fields, Gap)
    ensures AllFree(fields, Blank)
  {
  }

  /** What the parser sees of a rewritten line. */
  lemma StrippedColumns(f2fs: bool, line: string)
    requires PlainLine(line)
    ensures var fields := Tokens(line, Blank);
            && '\n' !in StripLine(f2fs, line)
            && (Tokens(StripLine(f2fs, line), Blank)
             == if Skipped(fields) || |fields| < 5 then fields else NonEmpty(StripFields(f2fs, fields)))
  {
    var fields := Tokens(line, Blank);
    SameColumns(line);
    if !Skipped(fields) && |fields| >= 5 {
      TokensFree(line, Gap);
      StrippedFieldsAreFree(f2fs, fields);
      var r := StripFields(f2fs, fields);
      hide Tokens, StripFields, Join, NonEmpty, AllFree;
      JoinHasNoNewline(r);
      SameFree(r);
      TokensOfJoin(r, ' ', Blank);
    }
  }

  /** One line, on the text. */
  lemma LineCommutes(env: Env, f2fs: bool, line: string)
    requires PlainLine(line) && LineOk(Tokens(line, Blank))
    ensures (ParseLine(env, StripLine(f2fs, line))
          == ClearLine(ParseFields(env, SwapType(f2fs, Tokens(line, Blank)))))
  {
    var fields := Tokens(line, Blank);
    StrippedColumns(f2fs, line);
    TokensFree(line, Blank);
    hide Tokens, StripLine, StripFields, NonEmpty, AllFree, ParseEntry, StripColumn, NoStray, EndsWith;
    if !Skipped(fields) && |fields| >= 5 {
      StrippedIsWhole(f2fs, fields);
      hide SwapType, ParseFields;
      FieldsCommute(env, f2fs, fields);
    }
  }

  lemma LineExact(env: Env, f2fs: bool, line: string)
    requires PlainLine(line) && |Tokens(line, Blank)| <= 5
    requires ParseFields(env, SwapType(f2fs, Tokens(line, Blank))).Good?
    requires (ParseLine(env, StripLine(f2fs, line))
           == ClearLine(ParseFields(env, SwapType(f2fs, Tokens(line, Blank)))))
    ensures LineOk(Tokens(line, Blank))
  {
    var fields := Tokens(line, Blank);
    StrippedColumns(f2fs, line);
    TokensFree(line, Blank);
    hide Tokens, StripLine, StripFields, NonEmpty, AllFree, ParseEntry, StripColumn, NoStray, EndsWith;
    if !Skipped(fields) && |fields| == 5 {
      hide SwapType, ParseFields;
      FieldsExact(env, f2fs, fields);
    }
  }

  // ---------------------------------------------------------------------
  // The whole file
  // ---------------------------------------------------------------------

  predicate PlainLines(lines: seq<string>) {
    forall i | 0 <= i < |lines| :: PlainLine(lines[i])
  }

  predicate LinesOk(lines: seq<string>) {
    forall i | 0 <= i < |lines| :: LineOk(Tokens(lines[i], Blank))
  }

  predicate FiveColumns(lines: seq<string>) {
    forall i | 0 <= i < |lines| :: Skipped(Tokens(lines[i], Blank)) || |Tokens(lines[i], Blank)| <= 5
  }

  lemma CollectCommutes(before: Option<seq<Entry>>, line: Line)
    ensures Collect(ClearParse(before), ClearLine(line)) == ClearParse(Collect(before, line))
  {
    hide Clear;
    if before.Some? && line.Good? {
      assert (before.value + [line.entry])[..|before.value|] == before.value;
    }
  }

  lemma {:induction false} LinesCommute(env: Env, f2fs: bool, lines: seq<string>)
    requires PlainLines(lines) && LinesOk(lines)
    ensures ParseLines(env, StripLines(f2fs, lines)) == ClearParse(ParseLinesAs(env, f2fs, lines))
  {
    if lines != [] {
      var init, last := lines[..|lines| - 1], lines[|lines| - 1];
      hide PlainLine, LineOk, StripLine, SwapType, ParseFields, Collect, ParseLine, Tokens;
      LinesCommute(env, f2fs, init);
      LineCommutes(env, f2fs, last);
      var r := StripLines(f2fs, lines);
      assert r[..|r| - 1] == StripLines(f2fs, init);
      CollectCommutes(ParseLinesAs(env, f2fs, init), ParseFields(env, SwapType(f2fs, Tokens(last, Blank))));
    }
  }

  lemma SwappedSkips(f2fs: bool, fields: seq<string>)
    ensures Skipped(SwapType(f2fs, fields)) <==> Skipped(fields)
  {
    hide EndsWith;
  }

  lemma SkipOrNot(env: Env, fields: seq<string>)
    ensures ParseFields(env, fields).Skip? <==> Skipped(fields)
    ensures ParseFields(env, fields).Good? ==> |fields| >= 5
  {
    hide ParseEntry, Skipped;
  }

  lemma FirstStays(f2fs: bool, fields: seq<string>)
    requires |fields| >= 5 && fields[0] != "" && !Skipped(fields)
    ensures !Skipped(NonEmpty(StripFields(f2fs, fields)))
  {
    var r := StripFields(f2fs, fields);
    hide StripColumn, EndsWith;
    assert r[0] == fields[0];
    hide StripFields;
    assert NonEmpty(r)[0] == r[0];
  }

  /** A line with an entry stays a line with an entry, or becomes a bad one. */
  lemma EntryStays(env: Env, f2fs: bool, line: string)
    requires PlainLine(line) && ParseFields(env, SwapType(f2fs, Tokens(line, Blank))).Good?
    ensures !ParseLine(env, StripLine(f2fs, line)).Skip?
  {
    hide *;
    var fields := Tokens(line, Blank);
    SwappedSkips(f2fs, fields);
    SkipOrNot(env, SwapType(f2fs, fields));
    TokensFree(line, Blank);
    FirstStays(f2fs, fields);
    StrippedColumns(f2fs, line);
    LineOfTokens(env, StripLine(f2fs, line));
    SkipOrNot(env, NonEmpty(StripFields(f2fs, fields)));
  }

  lemma {:induction false} LinesExact(env: Env, f2fs: bool, lines: seq<string>)
    requires PlainLines(lines) && FiveColumns(lines) && ParseLinesAs(env, f2fs, lines).Some?
    requires ParseLines(env, StripLines(f2fs, lines)) == ClearParse(ParseLinesAs(env, f2fs, lines))
    ensures LinesOk(lines)
    decreases |lines|
  {
    if lines != [] {
      var init, last := lines[..|lines| - 1], lines[|lines| - 1];
      var before, line := ParseLinesAs(env, f2fs, init), ParseFields(env, SwapType(f2fs, Tokens(last, Blank)));
      var before', line' := ParseLines(env, StripLines(f2fs, init)), ParseLine(env, StripLine(f2fs, last));
      hide PlainLine, LineOk, StripLine, SwapType, ParseFields, ParseLine, Tokens;
      var r := StripLines(f2fs, lines);
      assert r[..|r| - 1] == StripLines(f2fs, init);
      if line.Skip? {
        SkipIsOk(env, f2fs, last);
      } else {
        EntryStays(env, f2fs, last);
        LastOfBoth(before, line, before', line');
        LineExact(env, f2fs, last);
      }
      LinesExact(env, f2fs, init);
      SnocOk(lines);
    }
  }

  lemma SnocOk(lines: seq<string>)
    requires lines != [] && LinesOk(lines[..|lines| - 1]) && LineOk(Tokens(lines[|lines| - 1], Blank))
    ensures LinesOk(lines)
  {
    hide LineOk, Tokens;
  }

  lemma SkipIsOk(env: Env, f2fs: bool, line: string)
    requires PlainLine(line) && ParseFields(env, SwapType(f2fs, Tokens(line, Blank))).Skip?
    ensures LineOk(Tokens(line, Blank)) && ParseLine(env, StripLine(f2fs, line)).Skip?
  {
    hide Tokens, ParseEntry, StripFields, Join;
    SwappedSkips(f2fs, Tokens(line, Blank));
    StrippedColumns(f2fs, line);
  }

  lemma LastOfBoth(before: Option<seq<Entry>>, line: Line, before': Option<seq<Entry>>, line': Line)
    requires Collect(before, line).Some? && line.Good? && !line'.Skip?
    requires Collect(before', line') == ClearParse(Collect(before, line))
    ensures before' == ClearParse(before) && line' == ClearLine(line)
  {
    hide Clear;
    CollectCommutes(before, line);
    var all, all' := ClearAll(before.value) + [Clear(line.entry)], before'.value + [line'.entry];
    assert all == all';
    assert all[|all| - 1] == Clear(line.entry) && all[..|all| - 1] == ClearAll(before.value);
    assert all'[|all'| - 1] == line'.entry && all'[..|all'| - 1] == before'.value;
  }

  // ---------------------------------------------------------------------
  // The text
  // ---------------------------------------------------------------------

  lemma {:induction false} BreakIsNewline(s: string)
    requires Plain(s)
    ensures WordEnd(s, PyBreak) == IndexOf(s, '\n')
  {
    if s != "" {
      assert s[0] in s;
      BreakIsNewline(s[1..]);
    }
  }

  /** `splitlines` leaves out the empty piece behind a final newline. */
  function WithoutLastEmpty(lines: seq<string>): seq<string>
    requires lines != []
  {
    if lines[|lines| - 1] == "" then lines[..|lines| - 1] else lines
  }

  lemma {:induction false} LinesAgree(s: string)
    requires Plain(s)
    ensures PyLinesFrom(s) == WithoutLastEmpty(Split(s, '\n'))
    decreases |s|
  {
    BreakIsNewline(s);
    SplitStep(s, '\n');
    PyLinesStep(s);
    hide *;
    var k := IndexOf(s, '\n');
    if k == |s| {
      assert s[..k] == s;
      OneLine(s);
    } else {
      var rest := s[k + 1..];
      PlainRest(s, k + 1);
      LinesAgree(rest);
      LastEmptyBehind(s[..k], Split(rest, '\n'));
    }
  }

  lemma PyLinesStep(s: string)
    ensures var k := WordEnd(s, PyBreak);
            PyLinesFrom(s) == if k == |s| then (if s == "" then [] else [s]) else [s[..k]] + PyLinesFrom(s[k + 1..])
  {
    hide WordEnd;
  }

  lemma PlainRest(s: string, k: nat)
    requires Plain(s) && k <= |s|
    ensures Plain(s[k..])
  {
    hide PySpace;
  }

  lemma OneLine(s: string)
    ensures WithoutLastEmpty([s]) == if s == "" then [] else [s]
  {
  }

  lemma LastEmptyBehind(first: string, rest: seq<string>)
    requires rest != []
    ensures WithoutLastEmpty([first] + rest) == [first] + WithoutLastEmpty(rest)
  {
    assert ([first] + rest)[..|rest|] == [first] + rest[..|rest| - 1];
  }

  lemma SplitLinesArePlain(s: string)
    requires Plain(s)
    ensures PlainLines(Split(s, '\n'))
  {
    var lines := Split(s, '\n');
    forall i | 0 <= i < |lines|
      ensures PlainLine(lines[i])
    {
      SplitPieces(s, '\n', i);
    }
  }

  lemma EmptyLineIsSkipped(env: Env, f2fs: bool)
    ensures ParseLine(env, "") == Skip && ParseFields(env, SwapType(f2fs, Tokens("", Blank))) == Skip
    ensures LineOk(Tokens("", Blank))
  {
  }

  lemma LastEmptyIsNothing(env: Env, f2fs: bool, lines: seq<string>)
    requires lines != []
    ensures ParseLinesAs(env, f2fs, WithoutLastEmpty(lines)) == ParseLinesAs(env, f2fs, lines)
    ensures LinesOk(WithoutLastEmpty(lines)) <==> LinesOk(lines)
  {
    EmptyLineIsSkipped(env, f2fs);
    hide LineOk, Tokens, ParseFields, SwapType;
    if lines[|lines| - 1] == "" && LinesOk(lines[..|lines| - 1]) {
      SnocOk(lines);
    }
  }

  lemma StripLineAt(f2fs: bool, lines: seq<string>, i: nat)
    requires i < |lines|
    ensures StripLines(f2fs, lines)[i] == StripLine(f2fs, lines[i])
  {
    hide StripLine;
    if i < |lines| - 1 {
      StripLineAt(f2fs, lines[..|lines| - 1], i);
    }
  }

  /** The parser finds the rewritten lines and an empty one behind them. */
  lemma StrippedSplits(f2fs: bool, text: string)
    requires Plain(text)
    ensures var lines := StripLines(f2fs, PyLinesFrom(text));
            Split(Strip(f2fs, text), '\n') == (if lines == [] then [""] else lines) + [""]
  {
    var before := PyLinesFrom(text);
    var lines := StripLines(f2fs, before);
    LinesAgree(text);
    SplitLinesArePlain(text);
    var shown := if lines == [] then [""] else lines;
    forall i | 0 <= i < |shown + [""]|
      ensures '\n' !in (shown + [""])[i]
    {
      if lines != [] && i < |lines| {
        StripLineAt(f2fs, before, i);
        StrippedColumns(f2fs, before[i]);
      }
    }
    assert Join(shown, '\n') == Join(lines, '\n');
    hide Join, Split, StripLines, PyLinesFrom;
    JoinSnocEmpty(shown, '\n');
    SplitOfJoin(shown + [""], '\n');
  }

  lemma ParseOfStripped(env: Env, f2fs: bool, text: string)
    requires Plain(text)
    ensures Parse(env, Strip(f2fs, text)) == OrFail(ParseLines(env, StripLines(f2fs, PyLinesFrom(text))))
  {
    hide *;
    var lines := StripLines(f2fs, PyLinesFrom(text));
    StrippedSplits(f2fs, text);
    ParseBySplit(env, Strip(f2fs, text));
    EmptyLineAdds(env, lines);
    EmptyLineAdds(env, [""]);
    EmptyLineAdds(env, []);
    assert [] + [""] == [""];
  }

  lemma ParseBySplit(env: Env, text: string)
    ensures Parse(env, text) == OrFail(ParseLines(env, Split(text, '\n')))
  {
    hide Split, ParseLines, OrFail;
  }

  lemma EmptyLineAdds(env: Env, lines: seq<string>)
    ensures ParseLines(env, lines + [""]) == ParseLines(env, lines)
  {
    EmptyLineIsSkipped(env, false);
    hide ParseLine;
    assert (lines + [""])[..|lines|] == lines;
  }

  lemma OrFailCommutes(es: Option<seq<Entry>>, o: Option<seq<Entry>>)
    ensures OrFail(ClearParse(es)) == ClearParse(OrFail(es))
    ensures OrFail(es).Some? ==> es.Some?
    ensures OrFail(es).Some? && OrFail(o) == ClearParse(OrFail(es)) ==> o == ClearParse(es)
  {
  }

  /** What both readings of the lines have in common. */
  lemma LinesOfText(env: Env, f2fs: bool, text: string)
    requires Plain(text)
    ensures var lines := PyLinesFrom(text);
            && PlainLines(lines) && ParseAs(env, f2fs, text) == OrFail(ParseLinesAs(env, f2fs, lines))
            && (LinesOk(lines) <==> LinesOk(Split(text, '\n')))
            && (FiveColumns(Split(text, '\n')) ==> FiveColumns(lines))
  {
    var lines := Split(text, '\n');
    LinesAgree(text);
    SplitLinesArePlain(text);
    hide Split, PyLinesFrom, PlainLine, Tokens, LinesOk, ParseLinesAs, Plain;
    LastEmptyIsNothing(env, f2fs, lines);
  }

  /**
   Meaning is preserved across the two languages: stripping the text and parsing it
   is parsing it (with the chosen file system for userdata) and clearing the AVB bit,
   the vbmeta partition and the AVB keys of every entry, also when the parse fails.
   */
  lemma StripThenParse(env: Env, f2fs: bool, text: string)
    requires Plain(text) && LinesOk(Split(text, '\n'))
    ensures Parse(env, Strip(f2fs, text)) == ClearParse(ParseAs(env, f2fs, text))
  {
    hide *;
    var lines := PyLinesFrom(text);
    LinesOfText(env, f2fs, text);
    ParseOfStripped(env, f2fs, text);
    LinesCommute(env, f2fs, lines);
    OrFailCommutes(ParseLinesAs(env, f2fs, lines), None);
  }

  /** With the ext4 setting nothing but AVB changes. */
  lemma StripThenParseExt4(env: Env, text: string)
    requires Plain(text) && LinesOk(Split(text, '\n'))
    ensures Parse(env, Strip(false, text)) == ClearParse(Parse(env, text))
  {
    hide Strip, ParseLines, ParseLinesAs, LinesOk, Plain;
    StripThenParse(env, false, text);
    Ext4IsPlainParse(env, Split(text, '\n'));
  }

  /**
   On five-column files that parse, the condition is exact: no column may be emptied
   and no flag may be stray.
   */
  lemma StripExact(env: Env, f2fs: bool, text: string)
    requires Plain(text) && FiveColumns(Split(text, '\n')) && ParseAs(env, f2fs, text).Some?
    ensures (Parse(env, Strip(f2fs, text)) == ClearParse(ParseAs(env, f2fs, text))
        <==> LinesOk(Split(text, '\n')))
  {
    hide *;
    var lines := PyLinesFrom(text);
    LinesOfText(env, f2fs, text);
    ParseOfStripped(env, f2fs, text);
    OrFailCommutes(ParseLinesAs(env, f2fs, lines), ParseLines(env, StripLines(f2fs, lines)));
    if LinesOk(lines) {
      LinesCommute(env, f2fs, lines);
    } else if Parse(env, Strip(f2fs, text)) == ClearParse(ParseAs(env, f2fs, text)) {
      LinesExact(env, f2fs, lines);
    }
  }

  // A line whose only fs_mgr flag is avb.
  const LONE_AVB: seq<string> := ["s", "/", "e", "ro", "avb"]

  lemma LoneAvbWords()
    ensures AllFree(LONE_AVB, PySpace) && AllFree(LONE_AVB, Gap) && AllFree(LONE_AVB, Blank)
    ensures forall i | 0 <= i < |LONE_AVB| :: LONE_AVB[i] != ""
    ensures !Skipped(LONE_AVB)
  {
    Differ("#", LONE_AVB[0]);
  }

  lemma LoneAvbText()
    ensures var text := Join(LONE_AVB, ' ');
            && PlainLine(text) && Tokens(text, Blank) == LONE_AVB && Split(text, '\n') == [text]
            && text != "" && |Tokens(text, Blank)| == 5 && Tokens(text, Blank)[4] == "avb"
  {
    var text := Join(LONE_AVB, ' ');
    assert text != "";
    LoneAvbWords();
    forall c | c in text && c != ' '
      ensures !PySpace(c)
    {
      JoinChars(LONE_AVB, ' ', c);
    }
    hide Join, Tokens, Split, PySpace;
    JoinHasNoNewline(LONE_AVB);
    TokensOfJoin(LONE_AVB, ' ', Blank);
    NonEmptyOfWords(LONE_AVB);
    SplitOfOne(text);
  }

  lemma SplitOfOne(text: string)
    requires '\n' !in text
    ensures Split(text, '\n') == [text]
  {
    hide Join, Split;
    SplitOfJoin([text], '\n');
    JoinOfOne(text);
  }

  lemma JoinOfOne(text: string)
    ensures Join([text], '\n') == text
  {
  }

  lemma {:induction false} MountKeepsBits(env: Env, e: Entry, flags: seq<string>)
    ensures MountFlags(env, e, flags).fsMgrFlags == e.fsMgrFlags
  {
    hide Arg;
    if flags != [] {
      MountKeepsBits(env, e, flags[..|flags| - 1]);
    }
  }

  lemma SplitAvb()
    ensures Split("avb", ',') == ["avb"]
  {
    assert ',' !in "avb";
    hide Split, Join;
    SplitOfJoin(["avb"], ',');
    JoinOfComma("avb");
  }

  lemma JoinOfComma(text: string)
    ensures Join([text], ',') == text
  {
  }

  lemma LoneFlag(env: Env, e: Entry)
    requires Crypt !in e.fsMgrFlags
    ensures FsMgrFlags(env, e, ["avb"]).Some?
  {
    assert ["avb"][..0] == [] && ApplyFlags(env, e, []) == Some(e);
    assert Classify("avb") == Simple(Avb) by {
      assert "avb"[0] == 'a';
    }
  }

  lemma LoneAvbIsGood(env: Env)
    ensures ParseFields(env, LONE_AVB).Good?
  {
    LoneAvbWords();
    hide MountFlags, Split, FsMgrFlags, AllFree;
    SplitAvb();
    MountKeepsBits(env, BLANK.(blkDevice := LONE_AVB[0], mountPoint := LONE_AVB[1], fsType := LONE_AVB[2]),
                   Split(LONE_AVB[3], ','));
    LoneFlag(env, MountPart(env, LONE_AVB));
  }

  lemma LoneAvbIsEmptied()
    ensures StripColumn("avb") == ""
  {
    hide Split;
    SplitAvb();
    assert Kept(["avb"][..0]) == [];
  }

  lemma OneLineParse(env: Env, text: string)
    ensures ParseLines(env, [text]) == Collect(Some([]), ParseLine(env, text))
  {
    hide ParseLine;
    assert [text][..0] == [];
  }

  lemma LoneAvbLines(text: string)
    requires PlainLine(text) && text != "" && Split(text, '\n') == [text]
    ensures Plain(text) && StripLines(false, PyLinesFrom(text)) == [StripLine(false, text)]
  {
    LinesAgree(text);
    hide StripLine, Split, PyLinesFrom, Plain;
    assert [text][..0] == [];
  }

  /** Any good five-column line whose flags are all dropped makes the parse fail. */
  lemma EmptiedLineIsBad(env: Env, line: string)
    requires PlainLine(line) && |Tokens(line, Blank)| == 5 && StripColumn(Tokens(line, Blank)[4]) == ""
    requires ParseLine(env, line).Good?
    ensures ParseLine(env, StripLine(false, line)) == Bad
  {
    var fields := Tokens(line, Blank);
    assert !Skipped(fields);
    hide *;
    TokensFree(line, Blank);
    StrippedColumns(false, line);
    EmptiedIsBad(env, false, fields);
    LineOfTokens(env, StripLine(false, line));
    LineOfTokens(env, line);
    NoSwap(fields);
    EntryStays(env, false, line);
  }

  lemma LineOfTokens(env: Env, line: string)
    ensures ParseLine(env, line) == ParseFields(env, Tokens(line, Blank))
  {
  }

  lemma NoSwap(fields: seq<string>)
    ensures SwapType(false, fields) == fields
  {
  }

  lemma ParseOfOne(env: Env, text: string)
    requires Split(text, '\n') == [text]
    ensures Parse(env, text) == OrFail(Collect(Some([]), ParseLine(env, text)))
  {
    hide ParseLine, Split, ParseLines;
    OneLineParse(env, text);
  }

  lemma CollectOne(line: Line)
    ensures OrFail(Collect(Some([]), line)).Some? <==> line.Good?
  {
  }

  /** The smallest kind of file that parses before the rewriting and not after it. */
  lemma EmptiedColumnFails(env: Env)
    ensures Parse(env, Join(LONE_AVB, ' ')).Some?
    ensures Parse(env, Strip(false, Join(LONE_AVB, ' '))) == None
  {
    hide *;
    LoneAvbText();
    LoneAvbIsGood(env);
    LoneAvbIsEmptied();
    LineOfTokens(env, Join(LONE_AVB, ' '));
    OneLineFails(env, Join(LONE_AVB, ' '));
  }

  lemma OneLineFails(env: Env, text: string)
    requires PlainLine(text) && text != "" && Split(text, '\n') == [text]
    requires |Tokens(text, Blank)| == 5 && StripColumn(Tokens(text, Blank)[4]) == ""
    requires ParseLine(env, text).Good?
    ensures Parse(env, text).Some? && Parse(env, Strip(false, text)) == None
  {
    hide *;
    ParseOfOne(env, text);
    CollectOne(ParseLine(env, text));
    LoneAvbLines(text);
    ParseOfStripped(env, false, text);
    OneLineParse(env, StripLine(false, text));
    EmptiedLineIsBad(env, text);
    CollectOne(Bad);
  }
}

/** The fstab parser of fs_mgr. */
module Fstab {
  import opened Wrappers
  import opened Sequences
  import opened Text
  import opened FstabTypes

  const INT_MIN: int := -0x8000_0000
  const INT_MAX: int := 0x7FFF_FFFF
  const OFF_MIN: int := -0x8000_0000_0000_0000
  const OFF_MAX: int := 0x7FFF_FFFF_FFFF_FFFF

  /** The library calls and the device the parser asks. */
  datatype Env = Env(
    parseInt: (string, int, int) -> Option<int>,
    parseByteCount: string -> Option<nat>,
    pathExists: string -> bool,
    zramSize: int -> int,
    inRecovery: bool)

  // ---------------------------------------------------------------------
  // Mount flags
  // ---------------------------------------------------------------------

  /** What the list of mount flags says of a word. */
  datatype MountValue = Unlisted | NoBit | OneBit(bit: MountBit)

  function MountFlagValue(flag: string): MountValue {
    if flag == "noatime" then OneBit(NoAtime)
    else if flag == "noexec" then OneBit(NoExec)
    else if flag == "nosuid" then OneBit(NoSuid)
    else if flag == "nodev" then OneBit(NoDev)
    else if flag == "nodiratime" then OneBit(NoDirAtime)
    else if flag == "ro" then OneBit(ReadOnly)
    else if flag == "rw" then NoBit
    else if flag == "sync" then OneBit(Synchronous)
    else if flag == "remount" then OneBit(Remount)
    else if flag == "bind" then OneBit(Bind)
    else if flag == "rec" then OneBit(Rec)
    else if flag == "unbindable" then OneBit(Unbindable)
    else if flag == "private" then OneBit(Private)
    else if flag == "slave" then OneBit(Slave)
    else if flag == "shared" then OneBit(Shared)
    else if flag == "lazytime" then OneBit(LazyTime)
    else if flag == "nosymfollow" then OneBit(NoSymFollow)
    else if flag == "defaults" then NoBit
    else Unlisted
  }

  /** The text behind the first equal sign. */
  function Arg(flag: string): string {
    var i := IndexOf(flag, '=');
    if i < |flag| then flag[i + 1..] else ""
  }

  function MountFlag(env: Env, e: Entry, flag: string): Entry {
    match MountFlagValue(flag)
    case NoBit => e
    case OneBit(bit) => e.(flags := e.flags + {bit})
    case Unlisted =>
      var e1 := e.(fsOptions := if e.fsOptions == "" then flag else e.fsOptions + "," + flag);
      if '=' !in flag then e1
      else if e.fsType == "f2fs" && "reserve_root=" <= flag then
        (match env.parseInt(Arg(flag), 0, OFF_MAX / 4096)
         case None => e1
         case Some(blocks) => e1.(reservedSize := blocks * 4096))
      else if "lowerdir=" <= flag then e1.(lowerdir := Arg(flag))
      else e1
  }

  function MountFlags(env: Env, e: Entry, flags: seq<string>): Entry {
    if flags == [] then e else MountFlag(env, MountFlags(env, e, flags[..|flags| - 1]), flags[|flags| - 1])
  }

  // ---------------------------------------------------------------------
  // fs_mgr flags
  // ---------------------------------------------------------------------

  datatype Flag =
    | Nothing
    | Simple(bit: FsMgrFlag)
    | Unsupported
    | Encryptable
    | VoldManagedAs(arg: string)
    | LengthOf(arg: string)
    | SwapPrio(arg: string)
    | ZramSize(arg: string)
    | FileEncryptionWith(arg: string)
    | MaxCompStreams(arg: string)
    | ReservedSize(arg: string)
    | ReadaheadSizeKb(arg: string)
    | EraseBlk(arg: string)
    | LogicalBlk(arg: string)
    | AvbKeys(arg: string)
    | AvbHashtreeDigest(arg: string)
    | AvbOf(arg: string)
    | KeyDirectory(arg: string)
    | MetadataEncryption(arg: string)
    | SysfsPath(arg: string)
    | ZramBackingdevSize(arg: string)
    | Device(arg: string)

  /** The flags that only set a boolean. */
  function SimpleFlag(flag: string): Option<FsMgrFlag> {
    match EarlySimpleFlag(flag)
    case Some(bit) => Some(bit)
    case None =>
      match MiddleSimpleFlag(flag)
      case Some(bit) => Some(bit)
      case None => LateSimpleFlag(flag)
  }

  function EarlySimpleFlag(flag: string): Option<FsMgrFlag> {
    if flag == "wait" then Some(Wait)
    else if flag == "check" then Some(Check)
    else if flag == "nonremovable" then Some(NonRemovable)
    else if flag == "recoveryonly" then Some(RecoveryOnly)
    else if flag == "noemulatedsd" then Some(NoEmulatedSd)
    else if flag == "notrim" then Some(NoTrim)
    else if flag == "formattable" then Some(Formattable)
    else if flag == "slotselect" then Some(SlotSelect)
    else if flag == "latemount" then Some(LateMount)
    else if flag == "nofail" then Some(NoFail)
    else None
  }

  function MiddleSimpleFlag(flag: string): Option<FsMgrFlag> {
    if flag == "quota" then Some(Quota)
    else if flag == "avb" then Some(Avb)
    else if flag == "logical" then Some(Logical)
    else if flag == "checkpoint=block" then Some(CheckpointBlk)
    else if flag == "checkpoint=fs" then Some(CheckpointFs)
    else None
  }

  function LateSimpleFlag(flag: string): Option<FsMgrFlag> {
    if flag == "first_stage_mount" then Some(FirstStageMount)
    else if flag == "slotselect_other" then Some(SlotSelectOther)
    else if flag == "fsverity" then Some(FsVerity)
    else if flag == "metadata_csum" then Some(ExtMetaCsum)
    else if flag == "fscompress" then Some(FsCompress)
    else if flag == "overlayfs_remove_missing_lowerdir" then Some(OverlayfsRemoveMissingLowerdir)
    else None
  }

  /** The flags that take an argument, in the order they are tried. */
  function ArgFlag(flag: string): Flag {
    match EarlyArgFlag(flag, Arg(flag))
    case Some(f) => f
    case None => LateArgFlag(flag, Arg(flag))
  }

  function EarlyArgFlag(flag: string, arg: string): Option<Flag> {
    if "encryptable=" <= flag then Some(Encryptable)
    else if "forceencrypt=" <= flag || "forcefdeorfbe=" <= flag then Some(Unsupported)
    else if "voldmanaged=" <= flag then Some(VoldManagedAs(arg))
    else if "length=" <= flag then Some(LengthOf(arg))
    else if "swapprio=" <= flag then Some(SwapPrio(arg))
    else if "zramsize=" <= flag then Some(ZramSize(arg))
    else if "fileencryption=" <= flag || flag == "fileencryption" then Some(FileEncryptionWith(arg))
    else if "max_comp_streams=" <= flag then Some(MaxCompStreams(arg))
    else if "reservedsize=" <= flag then Some(ReservedSize(arg))
    else if "readahead_size_kb=" <= flag then Some(ReadaheadSizeKb(arg))
    else if "eraseblk=" <= flag then Some(EraseBlk(arg))
    else if "logicalblk=" <= flag then Some(LogicalBlk(arg))
    else None
  }

  function LateArgFlag(flag: string, arg: string): Flag {
    if "avb_keys=" <= flag then AvbKeys(arg)
    else if "avb_hashtree_digest=" <= flag then AvbHashtreeDigest(arg)
    else if "avb" <= flag then AvbOf(arg)
    else if "keydirectory=" <= flag then KeyDirectory(arg)
    else if "metadata_encryption=" <= flag then MetadataEncryption(arg)
    else if "sysfs_path=" <= flag then SysfsPath(arg)
    else if "zram_backingdev_size=" <= flag then ZramBackingdevSize(arg)
    else if "device=" <= flag then Device(arg)
    else Nothing
  }

  function Classify(flag: string): Flag {
    if flag == "" || flag == "defaults" then Nothing
    else
      match SimpleFlag(flag)
      case Some(bit) => Simple(bit)
      case None => ArgFlag(flag)
  }

  predicate PowerOfTwo(v: int) {
    v == 1 || (v > 1 && v % 2 == 0 && PowerOfTwo(v / 2))
  }

  /** `static_cast<off64_t>` of an unsigned 64-bit number. */
  function ToOff(v: nat): int {
    var w := v % 0x1_0000_0000_0000_0000;
    if w > OFF_MAX then w - 0x1_0000_0000_0000_0000 else w
  }

  function BlockSize(env: Env, arg: string): Option<int> {
    match env.parseInt(arg, OFF_MIN, OFF_MAX)
    case Some(v) => if v >= 4096 && PowerOfTwo(v) then Some(v) else None
    case None => None
  }

  function Or(v: Option<int>, otherwise: int): int {
    if v.Some? then v.value else otherwise
  }

  function ParseVoldManaged(env: Env, e: Entry, arg: string): Entry {
    var e1, parts := e.(fsMgrFlags := e.fsMgrFlags + {VoldManaged}), Split(arg, ':');
    if |parts| != 2 then e1
    else
      e1.(volume := parts[0],
          partnum := if parts[1] == "auto" then -1 else Or(env.parseInt(parts[1], INT_MIN, INT_MAX), -1))
  }

  function ParseZramSize(env: Env, e: Entry, arg: string): Entry {
    if arg != "" && arg[|arg| - 1] == '%' then
      match env.parseInt(arg[..|arg| - 1], 0, 200)
      case Some(v) => e.(zramSize := env.zramSize(v))
      case None => e
    else e.(zramSize := Or(env.parseInt(arg, OFF_MIN, OFF_MAX), e.zramSize))
  }

  function Without(fs: seq<string>, f: string): seq<string> {
    if fs == [] then [] else (if fs[0] == f then [] else [fs[0]]) + Without(fs[1..], f)
  }

  function ParseUserDevices(env: Env, e: Entry, arg: string): Entry {
    var param := Split(arg, ':');
    if |param| != 2 || !env.pathExists(param[1]) then e
    else
      var e1 := if param[0] != "zoned" then e
                else e.(fsOptions := Join(Without(Split(e.fsOptions, ','), "atgc"), ','),
                        fsMgrFlags := e.fsMgrFlags + {IsZoned});
      e1.(userDevices := e1.userDevices + [param[1]],
          deviceAliased := e1.deviceAliased + [param[0] == "exp_alias"])
  }

  /** What one flag does to the entry; None makes the whole parse fail. */
  function ApplyFlag(env: Env, e: Entry, flag: Flag): Option<Entry> {
    match flag
    case Nothing => Some(e)
    case Simple(bit) => Some(e.(fsMgrFlags := e.fsMgrFlags + {bit}))
    case Unsupported => None
    case Encryptable => Some(e.(fsMgrFlags := e.fsMgrFlags + {Crypt}))
    case VoldManagedAs(arg) => Some(ParseVoldManaged(env, e, arg))
    case LengthOf(arg) => Some(e.(length := Or(env.parseInt(arg, OFF_MIN, OFF_MAX), e.length)))
    case SwapPrio(arg) => Some(e.(swapPrio := Or(env.parseInt(arg, INT_MIN, INT_MAX), e.swapPrio)))
    case ZramSize(arg) => Some(ParseZramSize(env, e, arg))
    case FileEncryptionWith(arg) =>
      Some(e.(fsMgrFlags := e.fsMgrFlags + {FileEncryption}, encryptionOptions := arg))
    case MaxCompStreams(arg) =>
      Some(e.(maxCompStreams := Or(env.parseInt(arg, INT_MIN, INT_MAX), e.maxCompStreams)))
    case ReservedSize(arg) =>
      (match env.parseByteCount(arg)
       case Some(v) => Some(e.(reservedSize := ToOff(v)))
       case None => Some(e))
    case ReadaheadSizeKb(arg) =>
      Some(e.(readaheadSizeKb := Or(env.parseInt(arg, 0, 16 * 1024), e.readaheadSizeKb)))
    case EraseBlk(arg) => Some(e.(eraseBlkSize := Or(BlockSize(env, arg), e.eraseBlkSize)))
    case LogicalBlk(arg) => Some(e.(logicalBlkSize := Or(BlockSize(env, arg), e.logicalBlkSize)))
    case AvbKeys(arg) => Some(e.(avbKeys := arg))
    case AvbHashtreeDigest(arg) => Some(e.(avbHashtreeDigest := arg))
    case AvbOf(arg) => Some(e.(fsMgrFlags := e.fsMgrFlags + {Avb}, vbmetaPartition := arg))
    case KeyDirectory(arg) => Some(e.(metadataKeyDir := arg))
    case MetadataEncryption(arg) => Some(e.(metadataEncryptionOptions := arg))
    case SysfsPath(arg) => Some(e.(sysfsPath := arg))
    case ZramBackingdevSize(arg) =>
      (match env.parseByteCount(arg)
       case Some(v) => Some(e.(zramBackingdevSize := v))
       case None => Some(e))
    case Device(arg) => Some(ParseUserDevices(env, e, arg))
  }

  function ApplyFlags(env: Env, e: Entry, flags: seq<string>): Option<Entry> {
    if flags == [] then Some(e)
    else
      match ApplyFlags(env, e, flags[..|flags| - 1])
      case None => None
      case Some(e1) => ApplyFlag(env, e1, Classify(flags[|flags| - 1]))
  }

  /** Full-disk encryption is rejected outside recovery. */
  predicate Rejected(env: Env, e: Entry) {
    Crypt in e.fsMgrFlags && VoldManaged !in e.fsMgrFlags && !env.inRecovery
  }

  function FsMgrFlags(env: Env, e: Entry, flags: seq<string>): Option<Entry> {
    match ApplyFlags(env, e, flags)
    case None => None
    case Some(e1) => if Rejected(env, e1) then None else Some(e1)
  }

  // ---------------------------------------------------------------------
  // Lines
  // ---------------------------------------------------------------------

  predicate Blank(c: char) {
    c == ' ' || c == '\t'
  }

  function NamedLogical(e: Entry): Entry {
    if Logical in e.fsMgrFlags then e.(logicalPartitionName := e.blkDevice) else e
  }

  function MountPart(env: Env, fields: seq<string>): Entry
    requires |fields| >= 4
  {
    MountFlags(env, BLANK.(blkDevice := fields[0], mountPoint := fields[1], fsType := fields[2]),
               Split(fields[3], ','))
  }

  function ParseEntry(env: Env, fields: seq<string>): Option<Entry>
    requires |fields| >= 5
  {
    match FsMgrFlags(env, MountPart(env, fields), Split(fields[4], ','))
    case None => None
    case Some(e) => Some(NamedLogical(e))
  }

  predicate Skipped(fields: seq<string>) {
    fields == [] || "#" <= fields[0]
  }

  datatype Line = Skip | Bad | Good(entry: Entry)

  function ParseFields(env: Env, fields: seq<string>): Line {
    if Skipped(fields) then Skip
    else if |fields| < 5 then Bad
    else
      match ParseEntry(env, fields)
      case None => Bad
      case Some(e) => Good(e)
  }

  function ParseLine(env: Env, line: string): Line {
    ParseFields(env, Tokens(line, Blank))
  }

  function Collect(before: Option<seq<Entry>>, line: Line): Option<seq<Entry>> {
    if before.None? || line.Bad? then None
    else if line.Skip? then before
    else Some(before.value + [line.entry])
  }

  function ParseLines(env: Env, lines: seq<string>): Option<seq<Entry>> {
    if lines == [] then Some([])
    else Collect(ParseLines(env, lines[..|lines| - 1]), ParseLine(env, lines[|lines| - 1]))
  }

  function OrFail(es: Option<seq<Entry>>): Option<seq<Entry>> {
    if es == Some([]) then None else es
  }

  /** ParseFstabFromString for a fstab file; a file without an entry fails. */
  function Parse(env: Env, text: string): Option<seq<Entry>> {
    OrFail(ParseLines(env, Split(text, '\n')))
  }

  /** A line of /proc/mounts: four fields, no fs_mgr flags, and what follows is ignored. */
  function ParseMountsLine(env: Env, line: string): Line {
    var fields := Tokens(line, Blank);
    if Skipped(fields) then Skip
    else if |fields| < 4 then Bad
    else Good(NamedLogical(MountPart(env, fields)))
  }

  function ParseAnyLine(env: Env, procMounts: bool, line: string): Line {
    if procMounts then ParseMountsLine(env, line) else ParseLine(env, line)
  }

  function ParseAnyLines(env: Env, procMounts: bool, lines: seq<string>): Option<seq<Entry>> {
    if lines == [] then Some([])
    else
      Collect(ParseAnyLines(env, procMounts, lines[..|lines| - 1]), ParseAnyLine(env, procMounts, lines[|lines| - 1]))
  }

  /** ParseFstabFromString for either kind of file. */
  function ParseAny(env: Env, procMounts: bool, text: string): Option<seq<Entry>> {
    OrFail(ParseAnyLines(env, procMounts, Split(text, '\n')))
  }

  lemma {:induction false} FileIsParsed(env: Env, lines: seq<string>)
    ensures ParseAnyLines(env, false, lines) == ParseLines(env, lines)
    decreases |lines|
  {
    hide ParseLine, ParseMountsLine;
    if lines != [] {
      FileIsParsed(env, lines[..|lines| - 1]);
    }
  }

  // ---------------------------------------------------------------------
  // The loops
  // ---------------------------------------------------------------------

  method ParseMountFlags(env: Env, e: Entry, flags: string) returns (r: Entry)
    ensures r == MountFlags(env, e, Split(flags, ','))
  {
    r := e;
    var parts := Split(flags, ',');
    for i := 0 to |parts|
      invariant r == MountFlags(env, e, parts[..i])
    {
      assert parts[..i + 1][..i] == parts[..i];
      r := MountFlag(env, r, parts[i]);
    }
    assert parts[..|parts|] == parts;
  }

  method ParseFsMgrFlags(env: Env, e: Entry, flags: string) returns (r: Option<Entry>)
    ensures r == FsMgrFlags(env, e, Split(flags, ','))
  {
    hide ApplyFlag, Classify;
    var cur, parts := e, Split(flags, ',');
    for i := 0 to |parts|
      invariant ApplyFlags(env, e, parts[..i]) == Some(cur)
    {
      assert parts[..i + 1][..i] == parts[..i];
      var next := ApplyFlag(env, cur, Classify(parts[i]));
      if next.None? {
        FailedFlags(env, e, parts, i + 1);
        return None;
      }
      cur := next.value;
    }
    assert parts[..|parts|] == parts;
    r := if Rejected(env, cur) then None else Some(cur);
  }

  lemma {:induction false} FailedFlags(env: Env, e: Entry, flags: seq<string>, k: nat)
    requires k <= |flags| && ApplyFlags(env, e, flags[..k]) == None
    ensures ApplyFlags(env, e, flags) == None
    decreases |flags|
  {
    hide ApplyFlag, Classify;
    if k == |flags| {
      assert flags[..k] == flags;
    } else {
      var init := flags[..|flags| - 1];
      assert init[..k] == flags[..k];
      FailedFlags(env, e, init, k);
    }
  }

  /** One pass of the loop of ParseFstabFromString. */
  method ParseOneLine(env: Env, procMounts: bool, line: string) returns (r: Line)
    ensures r == ParseAnyLine(env, procMounts, line)
  {
    hide ParseEntry, FsMgrFlags, MountFlags;
    var fields := Tokens(line, Blank);
    if Skipped(fields) {
      return Skip;
    }
    if |fields| < (if procMounts then 4 else 5) {
      return Bad;
    }
    var e := BLANK.(blkDevice := fields[0], mountPoint := fields[1], fsType := fields[2]);
    e := ParseMountFlags(env, e, fields[3]);
    if !procMounts {
      var parsed := ParseFsMgrFlags(env, e, fields[4]);
      EntryOfParts(env, fields, e);
      if parsed.None? {
        return Bad;
      }
      e := parsed.value;
    }
    r := Good(NamedLogical(e));
  }

  /** ParseFstabFromString, line by line; it stops at the first bad line. */
  method ParseFstabFromString(env: Env, text: string, procMounts: bool) returns (r: Option<seq<Entry>>)
    ensures r == ParseAny(env, procMounts, text)
    ensures !procMounts ==> r == Parse(env, text)
  {
    hide ParseAnyLine, ParseLine;
    var lines, fstab := Split(text, '\n'), [];
    FileIsParsed(env, lines);
    for i := 0 to |lines|
      invariant ParseAnyLines(env, procMounts, lines[..i]) == Some(fstab)
    {
      assert lines[..i + 1][..i] == lines[..i];
      var line := ParseOneLine(env, procMounts, lines[i]);
      match line {
        case Skip =>
        case Bad =>
          FailedLines(env, procMounts, lines, i + 1);
          return None;
        case Good(e) => fstab := fstab + [e];
      }
    }
    assert lines[..|lines|] == lines;
    r := if fstab == [] then None else Some(fstab);
  }

  lemma EntryOfParts(env: Env, fields: seq<string>, e: Entry)
    requires |fields| >= 5 && e == MountPart(env, fields)
    ensures ParseEntry(env, fields)
         == match FsMgrFlags(env, e, Split(fields[4], ',')) {
              case None => None
              case Some(e1) => Some(NamedLogical(e1))
            }
  {
  }

  lemma {:induction false} FailedLines(env: Env, procMounts: bool, lines: seq<string>, k: nat)
    requires k <= |lines| && ParseAnyLines(env, procMounts, lines[..k]) == None
    ensures ParseAnyLines(env, procMounts, lines) == None
    decreases |lines|
  {
    hide ParseAnyLine;
    if k == |lines| {
      assert lines[..k] == lines;
    } else {
      var init := lines[..|lines| - 1];
      assert init[..k] == lines[..k];
      FailedLines(env, procMounts, init, k);
    }
  }
}

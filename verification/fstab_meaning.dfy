/**
 What a line of an fstab means, member by member and without the parser's loops: which
 column and which words each member of an entry comes from.
 */
module FstabMeaning {
  import opened Wrappers
  import opened Sequences
  import opened Text
  import opened FstabTypes
  import opened Fstab
  import opened FstabWords

  // ---------------------------------------------------------------------
  // Members that hold text
  // ---------------------------------------------------------------------

  datatype TextMember =
    | TVolume | TEncryptionOptions | TVbmetaPartition | TAvbKeys | TAvbHashtreeDigest | TMetadataKeyDir
    | TMetadataEncryption | TSysfsPath

  function TextOf(e: Entry, m: TextMember): string {
    match m
    case TVolume => e.volume
    case TEncryptionOptions => e.encryptionOptions
    case TVbmetaPartition => e.vbmetaPartition
    case TAvbKeys => e.avbKeys
    case TAvbHashtreeDigest => e.avbHashtreeDigest
    case TMetadataKeyDir => e.metadataKeyDir
    case TMetadataEncryption => e.metadataEncryptionOptions
    case TSysfsPath => e.sysfsPath
  }

  /** The label and the number of `voldmanaged=label:number`. */
  function Managed(w: string): Option<(string, string)> {
    match After(KVoldManaged, w)
    case None => None
    case Some(arg) => var parts := Split(arg, ':'); if |parts| == 2 then Some((parts[0], parts[1])) else None
  }

  /** What a word says about a text member. */
  function TextIn(m: TextMember, w: string): Option<string> {
    match m
    case TVolume => if Managed(w).Some? then Some(Managed(w).value.0) else None
    case TEncryptionOptions => if w == "fileencryption" then Some("") else After(KFileEncryption, w)
    case TVbmetaPartition => if NamesVbmeta(w) then Some(Arg(w)) else None
    case TAvbKeys => After(KAvbKeys, w)
    case TAvbHashtreeDigest => After(KAvbHashtreeDigest, w)
    case TMetadataKeyDir => After(KKeyDirectory, w)
    case TMetadataEncryption => After(KMetadataEncryption, w)
    case TSysfsPath => After(KSysfsPath, w)
  }

  function FlagText(m: TextMember, f: Flag): Option<string> {
    match m
    case TVolume =>
      if f.VoldManagedAs? && |Split(f.arg, ':')| == 2 then Some(Split(f.arg, ':')[0]) else None
    case TEncryptionOptions => if f.FileEncryptionWith? then Some(f.arg) else None
    case TVbmetaPartition => if f.AvbOf? then Some(f.arg) else None
    case TAvbKeys => if f.AvbKeys? then Some(f.arg) else None
    case TAvbHashtreeDigest => if f.AvbHashtreeDigest? then Some(f.arg) else None
    case TMetadataKeyDir => if f.KeyDirectory? then Some(f.arg) else None
    case TMetadataEncryption => if f.MetadataEncryption? then Some(f.arg) else None
    case TSysfsPath => if f.SysfsPath? then Some(f.arg) else None
  }

  function TextOr(t: Option<string>, otherwise: string): string {
    if t.Some? then t.value else otherwise
  }

  /** The kinds of words whose flag and argument tell each other. */
  lemma ArgByFlag(k: Kind, w: string)
    requires !Forced(k) && k != KFileEncryption && k != KEncryptable
    ensures After(k, w) == FlagArg(k, Classify(w))
  {
    hide Classify, Prefix;
    KindByFlag(k, w);
  }

  function FlagArg(k: Kind, f: Flag): Option<string> {
    if !IsOf(k, f) || Forced(k) || k == KEncryptable then None else Some(f.arg)
  }

  lemma TextByFlag(m: TextMember, w: string)
    ensures TextIn(m, w) == FlagText(m, Classify(w))
  {
    hide Classify, Prefix, NamesVbmeta, Split, Arg, Fits;
    match m {
      case TVolume => ArgByFlag(KVoldManaged, w);
      case TEncryptionOptions => FileEncryptionByFlag(w);
      case TVbmetaPartition => VbmetaByFlag(w);
      case TAvbKeys => ArgByFlag(KAvbKeys, w);
      case TAvbHashtreeDigest => ArgByFlag(KAvbHashtreeDigest, w);
      case TMetadataKeyDir => ArgByFlag(KKeyDirectory, w);
      case TMetadataEncryption => ArgByFlag(KMetadataEncryption, w);
      case TSysfsPath => ArgByFlag(KSysfsPath, w);
    }
  }

  predicate TellsText(f: Flag) {
    f.VoldManagedAs? || f.FileEncryptionWith? || f.AvbOf? || f.AvbKeys? || f.AvbHashtreeDigest? || f.KeyDirectory?
    || f.MetadataEncryption? || f.SysfsPath?
  }

  lemma TextSet(env: Env, e: Entry, f: Flag, m: TextMember)
    requires ApplyFlag(env, e, f).Some? && TellsText(f)
    ensures TextOf(ApplyFlag(env, e, f).value, m) == TextOr(FlagText(m, f), TextOf(e, m))
  {
    hide Split, BlockSize, ToOff, ParseUserDevices, ParseZramSize;
  }

  lemma TextKept(env: Env, e: Entry, f: Flag, m: TextMember)
    requires ApplyFlag(env, e, f).Some? && !TellsText(f)
    ensures TextOf(ApplyFlag(env, e, f).value, m) == TextOf(e, m) && FlagText(m, f) == None
  {
    hide Split, BlockSize, ToOff, ParseUserDevices, ParseZramSize, ParseVoldManaged;
    if f.Device? {
      DeviceKeeps(env, e, f.arg, m, NLength);
    } else if f.ZramSize? {
      ZramKeeps(env, e, f.arg, m);
    }
  }

  lemma TextStep(env: Env, e: Entry, f: Flag, m: TextMember)
    requires ApplyFlag(env, e, f).Some?
    ensures TextOf(ApplyFlag(env, e, f).value, m) == TextOr(FlagText(m, f), TextOf(e, m))
  {
    hide ApplyFlag, TextOf, FlagText, TellsText;
    if TellsText(f) {
      TextSet(env, e, f, m);
    } else {
      TextKept(env, e, f, m);
    }
  }

  lemma DeviceKeeps(env: Env, e: Entry, arg: string, m: TextMember, n: NumberMember)
    ensures TextOf(ParseUserDevices(env, e, arg), m) == TextOf(e, m)
    ensures NumberOf(ParseUserDevices(env, e, arg), n) == NumberOf(e, n)
  {
    hide Split, Join, Without;
  }

  lemma ZramKeeps(env: Env, e: Entry, arg: string, m: TextMember)
    ensures TextOf(ParseZramSize(env, e, arg), m) == TextOf(e, m)
  {
  }

  // ---------------------------------------------------------------------
  // Members that hold a number
  // ---------------------------------------------------------------------

  datatype NumberMember =
    | NLength | NPartnum | NSwapPrio | NMaxCompStreams | NZramSize | NReservedSize | NReadaheadSizeKb
    | NEraseBlkSize | NLogicalBlkSize | NZramBackingdevSize

  function NumberOf(e: Entry, m: NumberMember): int {
    match m
    case NLength => e.length
    case NPartnum => e.partnum
    case NSwapPrio => e.swapPrio
    case NMaxCompStreams => e.maxCompStreams
    case NZramSize => e.zramSize
    case NReservedSize => e.reservedSize
    case NReadaheadSizeKb => e.readaheadSizeKb
    case NEraseBlkSize => e.eraseBlkSize
    case NLogicalBlkSize => e.logicalBlkSize
    case NZramBackingdevSize => e.zramBackingdevSize
  }

  /** An argument read as a number within bounds. */
  function Parsed(env: Env, arg: Option<string>, lo: int, hi: int): Option<int> {
    if arg.Some? then env.parseInt(arg.value, lo, hi) else None
  }

  /** A percentage of the memory, or a number. */
  function ZramSizeOf(env: Env, arg: string): Option<int> {
    if arg != "" && arg[|arg| - 1] == '%' then
      match env.parseInt(arg[..|arg| - 1], 0, 200)
      case Some(v) => Some(env.zramSize(v))
      case None => None
    else env.parseInt(arg, OFF_MIN, OFF_MAX)
  }

  function PartnumOf(env: Env, text: string): int {
    if text == "auto" then -1 else Or(env.parseInt(text, INT_MIN, INT_MAX), -1)
  }

  function BytesOf(env: Env, arg: Option<string>): Option<nat> {
    if arg.Some? then env.parseByteCount(arg.value) else None
  }

  /** What a word says about a number; None also when its argument is malformed. */
  function NumberIn(env: Env, m: NumberMember, w: string): Option<int> {
    match m
    case NLength => Parsed(env, After(KLength, w), OFF_MIN, OFF_MAX)
    case NPartnum => if Managed(w).Some? then Some(PartnumOf(env, Managed(w).value.1)) else None
    case NSwapPrio => Parsed(env, After(KSwapPrio, w), INT_MIN, INT_MAX)
    case NMaxCompStreams => Parsed(env, After(KMaxCompStreams, w), INT_MIN, INT_MAX)
    case NZramSize => if After(KZramSize, w).Some? then ZramSizeOf(env, After(KZramSize, w).value) else None
    case NReservedSize =>
      (match BytesOf(env, After(KReservedSize, w)) case Some(v) => Some(ToOff(v)) case None => None)
    case NReadaheadSizeKb => Parsed(env, After(KReadaheadSizeKb, w), 0, 16384)
    case NEraseBlkSize => if After(KEraseBlk, w).Some? then BlockSize(env, After(KEraseBlk, w).value) else None
    case NLogicalBlkSize => if After(KLogicalBlk, w).Some? then BlockSize(env, After(KLogicalBlk, w).value) else None
    case NZramBackingdevSize =>
      (match BytesOf(env, After(KZramBackingdevSize, w)) case Some(v) => Some(v) case None => None)
  }

  function FlagNumber(env: Env, m: NumberMember, f: Flag): Option<int> {
    match m
    case NLength => if f.LengthOf? then env.parseInt(f.arg, OFF_MIN, OFF_MAX) else None
    case NPartnum =>
      if f.VoldManagedAs? && |Split(f.arg, ':')| == 2 then Some(PartnumOf(env, Split(f.arg, ':')[1])) else None
    case NSwapPrio => if f.SwapPrio? then env.parseInt(f.arg, INT_MIN, INT_MAX) else None
    case NMaxCompStreams => if f.MaxCompStreams? then env.parseInt(f.arg, INT_MIN, INT_MAX) else None
    case NZramSize => if f.ZramSize? then ZramSizeOf(env, f.arg) else None
    case NReservedSize =>
      if f.ReservedSize? && env.parseByteCount(f.arg).Some? then Some(ToOff(env.parseByteCount(f.arg).value)) else None
    case NReadaheadSizeKb => if f.ReadaheadSizeKb? then env.parseInt(f.arg, 0, 16384) else None
    case NEraseBlkSize => if f.EraseBlk? then BlockSize(env, f.arg) else None
    case NLogicalBlkSize => if f.LogicalBlk? then BlockSize(env, f.arg) else None
    case NZramBackingdevSize =>
      if f.ZramBackingdevSize? && env.parseByteCount(f.arg).Some? then Some(env.parseByteCount(f.arg).value) else None
  }

  lemma NumberByFlag(env: Env, m: NumberMember, w: string)
    ensures NumberIn(env, m, w) == FlagNumber(env, m, Classify(w))
  {
    hide Classify, Prefix, NamesVbmeta, Split, Arg, Fits, BlockSize, ZramSizeOf, PartnumOf, ToOff;
    match m {
      case NLength => ArgByFlag(KLength, w);
      case NPartnum => ArgByFlag(KVoldManaged, w);
      case NSwapPrio => ArgByFlag(KSwapPrio, w);
      case NMaxCompStreams => ArgByFlag(KMaxCompStreams, w);
      case NZramSize => ArgByFlag(KZramSize, w);
      case NReservedSize => ArgByFlag(KReservedSize, w);
      case NReadaheadSizeKb => ArgByFlag(KReadaheadSizeKb, w);
      case NEraseBlkSize => ArgByFlag(KEraseBlk, w);
      case NLogicalBlkSize => ArgByFlag(KLogicalBlk, w);
      case NZramBackingdevSize => ArgByFlag(KZramBackingdevSize, w);
    }
  }

  predicate TellsNumber(f: Flag) {
    f.LengthOf? || f.SwapPrio? || f.MaxCompStreams? || f.ReservedSize? || f.ReadaheadSizeKb? || f.EraseBlk?
    || f.LogicalBlk? || f.ZramBackingdevSize?
  }

  lemma NumberSet(env: Env, e: Entry, f: Flag, m: NumberMember)
    requires ApplyFlag(env, e, f).Some? && TellsNumber(f)
    ensures NumberOf(ApplyFlag(env, e, f).value, m) == Or(FlagNumber(env, m, f), NumberOf(e, m))
  {
    hide Split, BlockSize, ToOff, ParseUserDevices, ParseZramSize, ParseVoldManaged, ZramSizeOf, PartnumOf;
  }

  lemma NumberKept(env: Env, e: Entry, f: Flag, m: NumberMember)
    requires ApplyFlag(env, e, f).Some? && !TellsNumber(f) && !f.ZramSize? && !f.VoldManagedAs? && !f.Device?
    ensures NumberOf(ApplyFlag(env, e, f).value, m) == NumberOf(e, m) && FlagNumber(env, m, f) == None
  {
    hide Split, BlockSize, ToOff, ParseUserDevices, ParseZramSize, ParseVoldManaged, ZramSizeOf, PartnumOf;
  }

  lemma NumberOfDevice(env: Env, e: Entry, arg: string, m: NumberMember)
    ensures NumberOf(ParseUserDevices(env, e, arg), m) == NumberOf(e, m) && FlagNumber(env, m, Device(arg)) == None
  {
    hide ParseUserDevices, Split, BlockSize, ToOff;
    DeviceKeeps(env, e, arg, TVolume, m);
  }

  lemma NumberStep(env: Env, e: Entry, f: Flag, m: NumberMember)
    requires ApplyFlag(env, e, f).Some?
    ensures NumberOf(ApplyFlag(env, e, f).value, m) == Or(FlagNumber(env, m, f), NumberOf(e, m))
  {
    assert f.Device? ==> ApplyFlag(env, e, f) == Some(ParseUserDevices(env, e, f.arg));
    assert f.ZramSize? ==> ApplyFlag(env, e, f) == Some(ParseZramSize(env, e, f.arg));
    assert f.VoldManagedAs? ==> ApplyFlag(env, e, f) == Some(ParseVoldManaged(env, e, f.arg));
    hide ApplyFlag, NumberOf, FlagNumber, TellsNumber, ParseUserDevices, ParseZramSize, ParseVoldManaged;
    if f.Device? {
      NumberOfDevice(env, e, f.arg, m);
    } else if f.ZramSize? {
      ZramSets(env, e, f.arg, m);
    } else if f.VoldManagedAs? {
      VoldSets(env, e, f.arg, m);
    } else if TellsNumber(f) {
      NumberSet(env, e, f, m);
    } else {
      NumberKept(env, e, f, m);
    }
  }

  lemma ZramSets(env: Env, e: Entry, arg: string, m: NumberMember)
    ensures NumberOf(ParseZramSize(env, e, arg), m) == Or(FlagNumber(env, m, ZramSize(arg)), NumberOf(e, m))
  {
    hide Split, BlockSize, ToOff;
  }

  lemma VoldSets(env: Env, e: Entry, arg: string, m: NumberMember)
    ensures NumberOf(ParseVoldManaged(env, e, arg), m) == Or(FlagNumber(env, m, VoldManagedAs(arg)), NumberOf(e, m))
  {
    hide Split, BlockSize, ToOff;
  }

  // ---------------------------------------------------------------------
  // Devices and bits
  // ---------------------------------------------------------------------

  /** The kind and the path of `device=kind:path`, when the path exists. */
  function UserDevice(env: Env, w: string): Option<(string, string)> {
    match After(KDevice, w)
    case None => None
    case Some(arg) =>
      var parts := Split(arg, ':');
      if |parts| == 2 && env.pathExists(parts[1]) then Some((parts[0], parts[1])) else None
  }

  function FlagDevice(env: Env, f: Flag): Option<(string, string)> {
    if f.Device? && |Split(f.arg, ':')| == 2 && env.pathExists(Split(f.arg, ':')[1])
    then Some((Split(f.arg, ':')[0], Split(f.arg, ':')[1])) else None
  }

  /** The word sets the bit. */
  predicate Sets(env: Env, bit: FsMgrFlag, w: string) {
    || Keyword(bit) == Some(w)
    || (bit == Avb && NamesVbmeta(w))
    || (bit == Crypt && After(KEncryptable, w).Some?)
    || (bit == VoldManaged && After(KVoldManaged, w).Some?)
    || (bit == FileEncryption && (w == "fileencryption" || After(KFileEncryption, w).Some?))
    || (bit == IsZoned && UserDevice(env, w).Some? && UserDevice(env, w).value.0 == "zoned")
  }

  predicate FlagSets(env: Env, bit: FsMgrFlag, f: Flag) {
    || f == Simple(bit)
    || (bit == Avb && f.AvbOf?)
    || (bit == Crypt && f.Encryptable?)
    || (bit == VoldManaged && f.VoldManagedAs?)
    || (bit == FileEncryption && f.FileEncryptionWith?)
    || (bit == IsZoned && FlagDevice(env, f).Some? && FlagDevice(env, f).value.0 == "zoned")
  }

  lemma DeviceByFlag(env: Env, w: string)
    ensures UserDevice(env, w) == FlagDevice(env, Classify(w))
  {
    hide Classify, Prefix, Split, Fits;
    ArgByFlag(KDevice, w);
  }

  lemma BitByFlag(env: Env, bit: FsMgrFlag, w: string)
    ensures Sets(env, bit, w) <==> FlagSets(env, bit, Classify(w))
  {
    hide Classify, Prefix, Split, Fits, Keyword, NamesVbmeta, UserDevice, FlagDevice, After;
    SimpleByFlag(bit, w);
    VbmetaByFlag(w);
    KindByFlag(KEncryptable, w);
    KindByFlag(KVoldManaged, w);
    FileEncryptionByFlag(w);
    DeviceByFlag(env, w);
  }

  function Zoned(env: Env, f: Flag): bool {
    FlagDevice(env, f).Some? && FlagDevice(env, f).value.0 == "zoned"
  }

  /** Options without `atgc`. */
  function NoAtgc(options: string): string {
    Join(Without(Split(options, ','), "atgc"), ',')
  }

  lemma DeviceStep(env: Env, e: Entry, arg: string)
    ensures var e', d := ParseUserDevices(env, e, arg), FlagDevice(env, Device(arg));
            && e'.userDevices == e.userDevices + (if d.Some? then [d.value.1] else [])
            && e'.deviceAliased == e.deviceAliased + (if d.Some? then [d.value.0 == "exp_alias"] else [])
            && e'.fsOptions == (if Zoned(env, Device(arg)) then NoAtgc(e.fsOptions) else e.fsOptions)
            && e'.fsMgrFlags == (if Zoned(env, Device(arg)) then e.fsMgrFlags + {IsZoned} else e.fsMgrFlags)
            && e'.blkDevice == e.blkDevice && e'.mountPoint == e.mountPoint && e'.fsType == e.fsType
            && e'.flags == e.flags && e'.lowerdir == e.lowerdir && e'.logicalPartitionName == e.logicalPartitionName
  {
    hide Split, Join, Without;
    assert e.userDevices + [] == e.userDevices && e.deviceAliased + [] == e.deviceAliased;
  }

  predicate AddsBit(f: Flag) {
    f.Simple? || f.Encryptable? || f.VoldManagedAs? || f.FileEncryptionWith? || f.AvbOf?
  }

  lemma BitAdded(env: Env, e: Entry, f: Flag, bit: FsMgrFlag)
    requires ApplyFlag(env, e, f).Some? && AddsBit(f)
    ensures bit in ApplyFlag(env, e, f).value.fsMgrFlags <==> bit in e.fsMgrFlags || FlagSets(env, bit, f)
  {
    hide Split, ParseUserDevices, ParseZramSize, FlagDevice, BlockSize, ToOff;
    NoDevice(env, f);
  }

  lemma BitsKept(env: Env, e: Entry, f: Flag)
    requires ApplyFlag(env, e, f).Some? && !AddsBit(f) && !f.Device? && !f.ZramSize?
    ensures ApplyFlag(env, e, f).value.fsMgrFlags == e.fsMgrFlags
  {
    hide Split, ParseUserDevices, ParseZramSize, ParseVoldManaged, BlockSize, ToOff;
  }

  lemma NoBitAdded(env: Env, f: Flag, bit: FsMgrFlag)
    requires !AddsBit(f) && !f.Device?
    ensures !FlagSets(env, bit, f)
  {
    NoDevice(env, f);
    hide FlagDevice;
  }

  lemma BitOfDevice(env: Env, e: Entry, arg: string, bit: FsMgrFlag)
    ensures (bit in ParseUserDevices(env, e, arg).fsMgrFlags
        <==> bit in e.fsMgrFlags || FlagSets(env, bit, Device(arg)))
  {
    hide ParseUserDevices, FlagDevice;
    DeviceStep(env, e, arg);
  }

  lemma BitStep(env: Env, e: Entry, f: Flag, bit: FsMgrFlag)
    requires ApplyFlag(env, e, f).Some?
    ensures bit in ApplyFlag(env, e, f).value.fsMgrFlags <==> bit in e.fsMgrFlags || FlagSets(env, bit, f)
  {
    assert f.Device? ==> ApplyFlag(env, e, f) == Some(ParseUserDevices(env, e, f.arg));
    assert f.ZramSize? ==> ApplyFlag(env, e, f) == Some(ParseZramSize(env, e, f.arg));
    assert f.Device? || f.ZramSize? ==> !AddsBit(f);
    hide ApplyFlag, AddsBit, FlagSets, ParseUserDevices, ParseZramSize;
    if f.Device? {
      BitOfDevice(env, e, f.arg, bit);
    } else if AddsBit(f) {
      BitAdded(env, e, f, bit);
    } else {
      NoBitAdded(env, f, bit);
      if f.ZramSize? {
        ZramRest(env, e, f.arg);
      } else {
        BitsKept(env, e, f);
      }
    }
  }

  lemma NoDevice(env: Env, f: Flag)
    ensures !f.Device? ==> FlagDevice(env, f) == None
  {
  }

  predicate SameRest(e: Entry, e': Entry) {
    && e'.blkDevice == e.blkDevice && e'.mountPoint == e.mountPoint && e'.fsType == e.fsType
    && e'.flags == e.flags && e'.lowerdir == e.lowerdir && e'.logicalPartitionName == e.logicalPartitionName
  }

  lemma ZramRest(env: Env, e: Entry, arg: string)
    ensures var e' := ParseZramSize(env, e, arg);
            && SameRest(e, e') && e'.userDevices == e.userDevices && e'.deviceAliased == e.deviceAliased
            && e'.fsOptions == e.fsOptions && e'.fsMgrFlags == e.fsMgrFlags
  {
  }

  lemma RestKept(env: Env, e: Entry, f: Flag)
    requires ApplyFlag(env, e, f).Some? && !f.Device? && !f.ZramSize?
    ensures var e' := ApplyFlag(env, e, f).value;
            && SameRest(e, e') && e'.userDevices == e.userDevices && e'.deviceAliased == e.deviceAliased
            && e'.fsOptions == e.fsOptions
  {
    hide Split, ParseUserDevices, ParseZramSize, BlockSize, ToOff;
  }

  /** What a flag does to the members that are neither text, nor a number, nor a bit. */
  lemma RestStep(env: Env, e: Entry, f: Flag)
    requires ApplyFlag(env, e, f).Some?
    ensures var e', d := ApplyFlag(env, e, f).value, FlagDevice(env, f);
            && SameRest(e, e')
            && e'.userDevices == e.userDevices + (if d.Some? then [d.value.1] else [])
            && e'.deviceAliased == e.deviceAliased + (if d.Some? then [d.value.0 == "exp_alias"] else [])
            && e'.fsOptions == (if Zoned(env, f) then NoAtgc(e.fsOptions) else e.fsOptions)
  {
    assert f.Device? ==> ApplyFlag(env, e, f) == Some(ParseUserDevices(env, e, f.arg));
    assert f.ZramSize? ==> ApplyFlag(env, e, f) == Some(ParseZramSize(env, e, f.arg));
    hide ApplyFlag, ParseUserDevices, ParseZramSize, FlagDevice, NoAtgc;
    if f.Device? {
      DeviceStep(env, e, f.arg);
    } else {
      NoDevice(env, f);
      assert e.userDevices + [] == e.userDevices && e.deviceAliased + [] == e.deviceAliased;
      if f.ZramSize? {
        ZramRest(env, e, f.arg);
      } else {
        RestKept(env, e, f);
      }
    }
  }

  // ---------------------------------------------------------------------
  // All words of the fifth column
  // ---------------------------------------------------------------------

  /** What the last word that says something about the member says. */
  function LastText(m: TextMember, words: seq<string>, otherwise: string): string {
    if words == [] then otherwise
    else TextOr(TextIn(m, words[|words| - 1]), LastText(m, words[..|words| - 1], otherwise))
  }

  function LastNumber(env: Env, m: NumberMember, words: seq<string>, otherwise: int): int {
    if words == [] then otherwise
    else Or(NumberIn(env, m, words[|words| - 1]), LastNumber(env, m, words[..|words| - 1], otherwise))
  }

  ghost predicate SetBy(env: Env, bit: FsMgrFlag, words: seq<string>) {
    exists i | 0 <= i < |words| :: Sets(env, bit, words[i])
  }

  /** The paths of the devices that exist, and which of them are exported aliases. */
  function Devices(env: Env, words: seq<string>): seq<(string, bool)> {
    if words == [] then []
    else
      var d := UserDevice(env, words[|words| - 1]);
      Devices(env, words[..|words| - 1]) + if d.Some? then [(d.value.1, d.value.0 == "exp_alias")] else []
  }

  function Paths(ds: seq<(string, bool)>): seq<string> {
    seq(|ds|, i requires 0 <= i < |ds| => ds[i].0)
  }

  function Aliases(ds: seq<(string, bool)>): seq<bool> {
    seq(|ds|, i requires 0 <= i < |ds| => ds[i].1)
  }

  /** A word no fstab may contain. */
  predicate Forbidden(w: string) {
    After(KForceEncrypt, w).Some? || After(KForceFdeOrFbe, w).Some?
  }

  lemma ApplySnoc(env: Env, e: Entry, words: seq<string>)
    requires words != []
    ensures var before, f := ApplyFlags(env, e, words[..|words| - 1]), Classify(words[|words| - 1]);
            ApplyFlags(env, e, words) == if before.None? then None else ApplyFlag(env, before.value, f)
  {
    hide ApplyFlag, Classify;
  }

  lemma {:induction false} TextFold(env: Env, e: Entry, words: seq<string>, m: TextMember)
    requires ApplyFlags(env, e, words).Some?
    ensures TextOf(ApplyFlags(env, e, words).value, m) == LastText(m, words, TextOf(e, m))
    decreases |words|
  {
    if words == [] {
      assert ApplyFlags(env, e, words) == Some(e);
    } else {
      hide ApplyFlags, ApplyFlag, Classify, TextOf, TextIn, FlagText;
      var init, w := words[..|words| - 1], words[|words| - 1];
      ApplySnoc(env, e, words);
      TextFold(env, e, init, m);
      TextByFlag(m, w);
      TextStep(env, ApplyFlags(env, e, init).value, Classify(w), m);
    }
  }

  lemma {:induction false} NumberFold(env: Env, e: Entry, words: seq<string>, m: NumberMember)
    requires ApplyFlags(env, e, words).Some?
    ensures NumberOf(ApplyFlags(env, e, words).value, m) == LastNumber(env, m, words, NumberOf(e, m))
    decreases |words|
  {
    if words == [] {
      assert ApplyFlags(env, e, words) == Some(e);
    } else {
      hide ApplyFlags, ApplyFlag, Classify, NumberOf, NumberIn, FlagNumber;
      var init, w := words[..|words| - 1], words[|words| - 1];
      ApplySnoc(env, e, words);
      NumberFold(env, e, init, m);
      NumberByFlag(env, m, w);
      NumberStep(env, ApplyFlags(env, e, init).value, Classify(w), m);
    }
  }

  lemma SetBySnoc(env: Env, bit: FsMgrFlag, words: seq<string>)
    ensures words == [] ==> !SetBy(env, bit, words)
    ensures words != [] ==>
              SetBy(env, bit, words)
              == (SetBy(env, bit, words[..|words| - 1]) || Sets(env, bit, words[|words| - 1]))
  {
    hide Sets;
    if words != [] {
      var init := words[..|words| - 1];
      if SetBy(env, bit, init) {
        var i :| 0 <= i < |init| && Sets(env, bit, init[i]);
        assert words[i] == init[i];
      }
      if SetBy(env, bit, words) {
        var i :| 0 <= i < |words| && Sets(env, bit, words[i]);
        assert i < |init| ==> init[i] == words[i];
      }
    }
  }

  lemma {:induction false} BitFold(env: Env, e: Entry, words: seq<string>, bit: FsMgrFlag)
    requires ApplyFlags(env, e, words).Some?
    ensures (bit in ApplyFlags(env, e, words).value.fsMgrFlags
        <==> bit in e.fsMgrFlags || SetBy(env, bit, words))
    decreases |words|
  {
    SetBySnoc(env, bit, words);
    if words == [] {
      assert ApplyFlags(env, e, words) == Some(e);
    } else {
      hide ApplyFlags, ApplyFlag, Classify, Sets, SetBy, FlagSets;
      var init, w := words[..|words| - 1], words[|words| - 1];
      ApplySnoc(env, e, words);
      BitFold(env, e, init, bit);
      BitByFlag(env, bit, w);
      BitStep(env, ApplyFlags(env, e, init).value, Classify(w), bit);
    }
  }

  /** Removing the option again changes nothing. */
  lemma NoAtgcTwice(options: string)
    ensures NoAtgc(NoAtgc(options)) == NoAtgc(options)
  {
    var parts := Split(options, ',');
    var kept := Without(parts, "atgc");
    forall i | 0 <= i < |parts|
      ensures ',' !in parts[i]
    {
      SplitPieces(options, ',', i);
    }
    WithoutIs(parts, "atgc");
    if kept == [] {
      assert Split("", ',') == [""] && Without([""], "atgc") == [""];
    } else {
      hide Split, Without, Join;
      forall i | 0 <= i < |kept|
        ensures ',' !in kept[i]
      {
        assert kept[i] in parts;
      }
      SplitOfJoin(kept, ',');
      WithoutNone(kept, "atgc");
    }
  }

  lemma {:induction false} WithoutIs(fs: seq<string>, f: string)
    ensures f !in Without(fs, f) && forall x :: x in Without(fs, f) <==> x in fs && x != f
  {
    if fs != [] {
      WithoutIs(fs[1..], f);
      assert fs == [fs[0]] + fs[1..];
    }
  }

  lemma {:induction false} WithoutNone(fs: seq<string>, f: string)
    requires f !in fs
    ensures Without(fs, f) == fs
  {
    if fs != [] {
      WithoutNone(fs[1..], f);
    }
  }

  lemma ZonedIsBit(env: Env, w: string)
    ensures Sets(env, IsZoned, w) <==> Zoned(env, Classify(w))
    ensures UserDevice(env, w) == FlagDevice(env, Classify(w))
  {
    hide Classify, Split, UserDevice, FlagDevice, Prefix, Fits;
    DeviceByFlag(env, w);
  }

  lemma PathsSnoc(ds: seq<(string, bool)>, d: (string, bool))
    ensures Paths(ds + [d]) == Paths(ds) + [d.0] && Aliases(ds + [d]) == Aliases(ds) + [d.1]
    ensures Paths(ds + []) == Paths(ds) && Aliases(ds + []) == Aliases(ds)
  {
    assert ds + [] == ds;
  }

  lemma {:induction false} RestFold(env: Env, e: Entry, words: seq<string>)
    requires ApplyFlags(env, e, words).Some?
    ensures var e' := ApplyFlags(env, e, words).value;
            && SameRest(e, e')
            && e'.userDevices == e.userDevices + Paths(Devices(env, words))
            && e'.deviceAliased == e.deviceAliased + Aliases(Devices(env, words))
            && e'.fsOptions == (if SetBy(env, IsZoned, words) then NoAtgc(e.fsOptions) else e.fsOptions)
    decreases |words|
  {
    SetBySnoc(env, IsZoned, words);
    if words == [] {
      assert ApplyFlags(env, e, words) == Some(e);
      assert Paths([]) == [] && Aliases([]) == [];
      assert e.userDevices + [] == e.userDevices && e.deviceAliased + [] == e.deviceAliased;
    } else {
      hide ApplyFlags, ApplyFlag, Classify, Sets, SetBy, FlagDevice, Zoned, UserDevice, NoAtgc, Paths, Aliases;
      var init, w := words[..|words| - 1], words[|words| - 1];
      var d := UserDevice(env, w);
      ApplySnoc(env, e, words);
      RestFold(env, e, init);
      ZonedIsBit(env, w);
      RestStep(env, ApplyFlags(env, e, init).value, Classify(w));
      NoAtgcTwice(e.fsOptions);
      PathsSnoc(Devices(env, init), if d.Some? then (d.value.1, d.value.0 == "exp_alias") else ("", false));
      Assoc3(e.userDevices, Paths(Devices(env, init)), if d.Some? then [d.value.1] else []);
      Assoc3(e.deviceAliased, Aliases(Devices(env, init)), if d.Some? then [d.value.0 == "exp_alias"] else []);
      Assoc3(Paths(Devices(env, init)), [], []);
    }
  }

  lemma Assoc3<T>(a: seq<T>, b: seq<T>, c: seq<T>)
    ensures (a + b) + c == a + (b + c) && b + [] == b
  {
  }

  lemma UnsupportedFails(env: Env, e: Entry, f: Flag)
    ensures ApplyFlag(env, e, f).None? <==> f == Unsupported
  {
    hide Split, BlockSize, ParseUserDevices, ParseZramSize, ParseVoldManaged;
  }

  ghost predicate SomeForbidden(words: seq<string>) {
    exists i | 0 <= i < |words| :: Forbidden(words[i])
  }

  lemma SomeForbiddenSnoc(words: seq<string>)
    requires words != []
    ensures SomeForbidden(words) <==> SomeForbidden(words[..|words| - 1]) || Forbidden(words[|words| - 1])
  {
    hide Forbidden;
    var init := words[..|words| - 1];
    if SomeForbidden(init) {
      var i :| 0 <= i < |init| && Forbidden(init[i]);
      assert words[i] == init[i];
    }
    if SomeForbidden(words) {
      var i :| 0 <= i < |words| && Forbidden(words[i]);
      assert i < |init| ==> init[i] == words[i];
    }
  }

  lemma {:induction false} FailFold(env: Env, e: Entry, words: seq<string>)
    ensures ApplyFlags(env, e, words).None? <==> SomeForbidden(words)
    decreases |words|
  {
    if words == [] {
      assert ApplyFlags(env, e, words) == Some(e);
    } else {
      hide ApplyFlags, ApplyFlag, Classify, Forbidden, SomeForbidden;
      var init, w := words[..|words| - 1], words[|words| - 1];
      ApplySnoc(env, e, words);
      FailFold(env, e, init);
      ForbiddenByFlag(w);
      SomeForbiddenSnoc(words);
      if ApplyFlags(env, e, init).Some? {
        UnsupportedFails(env, ApplyFlags(env, e, init).value, Classify(w));
      }
    }
  }

  lemma ForbiddenByFlag(w: string)
    ensures Forbidden(w) <==> Classify(w) == Unsupported
  {
    hide Classify, After;
    ForcedByFlag(w);
  }

  // ---------------------------------------------------------------------
  // All words of the fourth column
  // ---------------------------------------------------------------------

  /** A word of the fourth column that is an option of the file system. */
  ghost predicate IsOption(w: string) {
    w != "rw" && w != "defaults" && forall bit :: w != MountWord(bit)
  }

  ghost function OptionsOf(words: seq<string>): seq<string> {
    if words == [] then []
    else
      var w := words[|words| - 1];
      OptionsOf(words[..|words| - 1]) + if IsOption(w) then [w] else []
  }

  /** Empty options in front leave no comma. */
  function Leading(ws: seq<string>): seq<string> {
    if ws != [] && ws[0] == "" then Leading(ws[1..]) else ws
  }

  function Behind(prefix: string, w: string): Option<string> {
    if prefix <= w then Some(w[|prefix|..]) else None
  }

  function LastLowerdir(words: seq<string>): string {
    if words == [] then ""
    else TextOr(Behind("lowerdir=", words[|words| - 1]), LastLowerdir(words[..|words| - 1]))
  }

  /** The bytes a word reserves for root, counted in blocks of 4096. */
  function ReservedIn(env: Env, w: string): Option<int> {
    match Behind("reserve_root=", w)
    case None => None
    case Some(arg) =>
      match env.parseInt(arg, 0, 0x7_FFFF_FFFF_FFFF)
      case None => None
      case Some(blocks) => Some(blocks * 4096)
  }

  function LastReserved(env: Env, words: seq<string>): int {
    if words == [] then 0 else Or(ReservedIn(env, words[|words| - 1]), LastReserved(env, words[..|words| - 1]))
  }

  lemma OptionIsUnlisted(w: string)
    ensures IsOption(w) <==> MountFlagValue(w) == Unlisted
  {
    hide MountFlagValue, MountWord;
    MountWithoutBit(w);
    if MountFlagValue(w).OneBit? {
      MountBits(w, MountFlagValue(w).bit);
    }
    if MountFlagValue(w) == Unlisted {
      forall bit: MountBit
        ensures w != MountWord(bit)
      {
        MountBits(w, bit);
      }
    }
  }

  lemma MountWordIsPlain(bit: MountBit)
    ensures '=' !in MountWord(bit)
  {
  }

  lemma WithEqualsIsOption(w: string)
    requires '=' in w
    ensures IsOption(w)
  {
    hide MountWord;
    assert '=' !in "rw" && '=' !in "defaults";
    forall bit: MountBit
      ensures w != MountWord(bit)
    {
      MountWordIsPlain(bit);
    }
  }

  lemma MountPrefixes()
    ensures EndsInEquals("lowerdir=") && EndsInEquals("reserve_root=")
    ensures "lowerdir="[0] == 'l' && "reserve_root="[0] == 'r'
  {
  }

  /** The two words with an argument that say something about an entry. */
  lemma MountArgs(w: string)
    ensures "lowerdir=" <= w ==> '=' in w && IsOption(w) && Arg(w) == w[|"lowerdir="|..] && !("reserve_root=" <= w)
    ensures "reserve_root=" <= w ==> '=' in w && IsOption(w) && Arg(w) == w[|"reserve_root="|..]
  {
    MountPrefixes();
    if "lowerdir=" <= w {
      LongEnough("lowerdir=", w);
      WithEqualsIsOption(w);
      ArgIsAfter("lowerdir=", w);
      assert w[0] == 'l';
    }
    if "reserve_root=" <= w {
      LongEnough("reserve_root=", w);
      WithEqualsIsOption(w);
      ArgIsAfter("reserve_root=", w);
    }
  }

  lemma {:induction false} LeadingSnoc(ws: seq<string>, w: string)
    ensures Leading(ws + [w]) == if Leading(ws) != [] then Leading(ws) + [w] else if w == "" then [] else [w]
  {
    if ws != [] && ws[0] == "" {
      assert (ws + [w])[1..] == ws[1..] + [w];
      LeadingSnoc(ws[1..], w);
    } else if ws == [] {
      assert ws + [w] == [w] && [w][1..] == [];
    }
  }

  lemma {:induction false} LeadingIsFull(ws: seq<string>)
    ensures Leading(ws) != [] ==> Leading(ws)[0] != ""
  {
    if ws != [] && ws[0] == "" {
      LeadingIsFull(ws[1..]);
    }
  }

  lemma OptionsSnoc(ws: seq<string>, w: string)
    ensures var o := Join(Leading(ws), ',');
            Join(Leading(ws + [w]), ',') == if o == "" then w else o + "," + w
  {
    var front := Leading(ws);
    LeadingSnoc(ws, w);
    LeadingIsFull(ws);
    hide Leading;
    if front == [] {
      assert Join([w], ',') == w;
    } else {
      assert Join(front, ',') != "";
      JoinSnoc(front, w, ',');
      assert [','] == ",";
    }
  }

  /** One word of the fourth column. */
  lemma MountStep(env: Env, e: Entry, w: string)
    ensures (MountFlag(env, e, w)
          == if !IsOption(w) then e.(flags := MountFlag(env, e, w).flags)
             else e.(fsOptions := if e.fsOptions == "" then w else e.fsOptions + "," + w,
                     lowerdir := TextOr(Behind("lowerdir=", w), e.lowerdir),
                     reservedSize := if e.fsType == "f2fs" then Or(ReservedIn(env, w), e.reservedSize)
                                     else e.reservedSize))
    ensures forall bit :: bit in MountFlag(env, e, w).flags <==> bit in e.flags || w == MountWord(bit)
    ensures !IsOption(w) ==> Behind("lowerdir=", w) == None && ReservedIn(env, w) == None
  {
    MountArgs(w);
    OptionIsUnlisted(w);
    forall bit: MountBit
      ensures MountFlagValue(w) == OneBit(bit) <==> w == MountWord(bit)
    {
      MountBits(w, bit);
    }
    hide IsOption, MountFlagValue, MountWord, Arg;
    assert OFF_MAX / 4096 == 0x7_FFFF_FFFF_FFFF;
  }

  lemma {:induction false} MountBitFold(env: Env, e: Entry, words: seq<string>, bit: MountBit)
    requires e.flags == {}
    ensures bit in MountFlags(env, e, words).flags <==> MountWord(bit) in words
    decreases |words|
  {
    if words != [] {
      var init, w := words[..|words| - 1], words[|words| - 1];
      hide IsOption, MountFlag, Behind, ReservedIn, MountWord;
      MountBitFold(env, e, init, bit);
      MountStep(env, MountFlags(env, e, init), w);
      assert words == init + [w];
    }
  }

  lemma {:induction false} MountFold(env: Env, e: Entry, words: seq<string>)
    requires e.fsOptions == "" && e.lowerdir == "" && e.reservedSize == 0
    ensures var e' := MountFlags(env, e, words);
            e' == e.(flags := e'.flags, fsOptions := Join(Leading(OptionsOf(words)), ','),
                     lowerdir := LastLowerdir(words),
                     reservedSize := if e.fsType == "f2fs" then LastReserved(env, words) else 0)
    decreases |words|
  {
    if words != [] {
      var init, w := words[..|words| - 1], words[|words| - 1];
      hide IsOption, MountFlag, Behind, ReservedIn, MountWord, Leading, Join;
      MountFold(env, e, init);
      MountStep(env, MountFlags(env, e, init), w);
      OptionsSnoc(OptionsOf(init), w);
      assert OptionsOf(init) + [] == OptionsOf(init);
    }
  }

  // ---------------------------------------------------------------------
  // A line
  // ---------------------------------------------------------------------

  /** Numbers no word says anything about. */
  function DefaultNumber(env: Env, m: NumberMember, fsType: string, options: seq<string>): int {
    match m
    case NPartnum => -1
    case NSwapPrio => -1
    case NReadaheadSizeKb => -1
    case NReservedSize => if fsType == "f2fs" then LastReserved(env, options) else 0
    case _ => 0
  }

  /** What the first four columns of a line say about an entry. */
  ghost predicate FourColumns(env: Env, fields: seq<string>, e: Entry)
    requires |fields| >= 4
  {
    var options := Split(fields[3], ',');
    && e.blkDevice == fields[0] && e.mountPoint == fields[1] && e.fsType == fields[2]
    && (forall bit :: bit in e.flags <==> MountWord(bit) in options)
    && e.lowerdir == LastLowerdir(options)
  }

  ghost function FsOptionsOf(fields: seq<string>): string
    requires |fields| >= 4
  {
    Join(Leading(OptionsOf(Split(fields[3], ','))), ',')
  }

  ghost predicate HoldsBits(env: Env, words: seq<string>, e: Entry) {
    forall bit :: bit in e.fsMgrFlags <==> SetBy(env, bit, words)
  }

  ghost predicate HoldsTexts(words: seq<string>, e: Entry) {
    forall m :: TextOf(e, m) == LastText(m, words, "")
  }

  ghost predicate HoldsNumbers(env: Env, fields: seq<string>, words: seq<string>, e: Entry)
    requires |fields| >= 4
  {
    forall m ::
      NumberOf(e, m) == LastNumber(env, m, words, DefaultNumber(env, m, fields[2], Split(fields[3], ',')))
  }

  ghost predicate HoldsDevices(env: Env, fields: seq<string>, words: seq<string>, e: Entry)
    requires |fields| >= 4
  {
    && e.fsOptions == (if SetBy(env, IsZoned, words) then NoAtgc(FsOptionsOf(fields)) else FsOptionsOf(fields))
    && e.userDevices == Paths(Devices(env, words)) && e.deviceAliased == Aliases(Devices(env, words))
    && e.logicalPartitionName == (if SetBy(env, Logical, words) then fields[0] else "")
  }

  /** The entry of a line with five columns, member by member. */
  ghost predicate Describes(env: Env, fields: seq<string>, e: Entry)
    requires |fields| >= 5
  {
    var words := Split(fields[4], ',');
    && FourColumns(env, fields, e) && HoldsBits(env, words, e) && HoldsTexts(words, e)
    && HoldsNumbers(env, fields, words, e) && HoldsDevices(env, fields, words, e)
  }

  /** The fifth column does not make the parse fail. */
  ghost predicate Allowed(env: Env, words: seq<string>) {
    && !SomeForbidden(words)
    && (SetBy(env, Crypt, words) ==> SetBy(env, VoldManaged, words) || env.inRecovery)
  }

  lemma MountPartMeans(env: Env, fields: seq<string>)
    requires |fields| >= 4
    ensures var e, options := MountPart(env, fields), Split(fields[3], ',');
            && FourColumns(env, fields, e)
            && e == BLANK.(blkDevice := fields[0], mountPoint := fields[1], fsType := fields[2], flags := e.flags,
                           fsOptions := FsOptionsOf(fields), lowerdir := LastLowerdir(options),
                           reservedSize := if fields[2] == "f2fs" then LastReserved(env, options) else 0)
  {
    var e0 := BLANK.(blkDevice := fields[0], mountPoint := fields[1], fsType := fields[2]);
    hide MountFlags, Split, Join, Leading, OptionsOf, LastLowerdir, LastReserved, MountWord;
    MountFold(env, e0, Split(fields[3], ','));
    forall bit: MountBit
      ensures bit in MountPart(env, fields).flags <==> MountWord(bit) in Split(fields[3], ',')
    {
      MountBitFold(env, e0, Split(fields[3], ','), bit);
    }
  }

  lemma BlankSays(env: Env, e: Entry, n: int, m: TextMember, k: NumberMember, fsType: string, options: seq<string>)
    requires n == (if fsType == "f2fs" then LastReserved(env, options) else 0)
    requires e == BLANK.(blkDevice := e.blkDevice, mountPoint := e.mountPoint, fsType := e.fsType, flags := e.flags,
                         fsOptions := e.fsOptions, lowerdir := e.lowerdir, reservedSize := n)
    ensures TextOf(e, m) == "" && NumberOf(e, k) == DefaultNumber(env, k, fsType, options)
  {
    hide LastReserved;
  }

  lemma NamedSays(e: Entry, m: TextMember, n: NumberMember)
    ensures TextOf(NamedLogical(e), m) == TextOf(e, m) && NumberOf(NamedLogical(e), n) == NumberOf(e, n)
    ensures NamedLogical(e).fsMgrFlags == e.fsMgrFlags
  {
  }

  lemma BitsAreHeld(env: Env, base: Entry, words: seq<string>)
    requires base.fsMgrFlags == {} && ApplyFlags(env, base, words).Some?
    ensures HoldsBits(env, words, NamedLogical(ApplyFlags(env, base, words).value))
  {
    hide ApplyFlags, SetBy, NamedLogical;
    var e := ApplyFlags(env, base, words).value;
    NamedSays(e, TVolume, NLength);
    forall bit: FsMgrFlag
      ensures bit in e.fsMgrFlags <==> SetBy(env, bit, words)
    {
      BitFold(env, base, words, bit);
    }
  }

  lemma TextsAreHeld(env: Env, base: Entry, words: seq<string>)
    requires ApplyFlags(env, base, words).Some? && forall m :: TextOf(base, m) == ""
    ensures HoldsTexts(words, NamedLogical(ApplyFlags(env, base, words).value))
  {
    hide ApplyFlags, NamedLogical, TextOf, LastText;
    var e := ApplyFlags(env, base, words).value;
    forall m: TextMember
      ensures TextOf(NamedLogical(e), m) == LastText(m, words, "")
    {
      NamedSays(e, m, NLength);
      TextFold(env, base, words, m);
    }
  }

  lemma NumbersAreHeld(env: Env, base: Entry, fields: seq<string>, words: seq<string>)
    requires |fields| >= 4 && ApplyFlags(env, base, words).Some?
    requires forall m :: NumberOf(base, m) == DefaultNumber(env, m, fields[2], Split(fields[3], ','))
    ensures HoldsNumbers(env, fields, words, NamedLogical(ApplyFlags(env, base, words).value))
  {
    hide ApplyFlags, NamedLogical, NumberOf, LastNumber, Split, DefaultNumber;
    var e := ApplyFlags(env, base, words).value;
    forall m: NumberMember
      ensures (NumberOf(NamedLogical(e), m)
            == LastNumber(env, m, words, DefaultNumber(env, m, fields[2], Split(fields[3], ','))))
    {
      NamedSays(e, TVolume, m);
      NumberFold(env, base, words, m);
    }
  }

  lemma DevicesAreHeld(env: Env, base: Entry, fields: seq<string>, words: seq<string>)
    requires |fields| >= 4 && ApplyFlags(env, base, words).Some? && base.fsOptions == FsOptionsOf(fields)
    requires base.userDevices == [] && base.deviceAliased == [] && base.fsMgrFlags == {}
    requires FourColumns(env, fields, base) && base.logicalPartitionName == ""
    ensures var e := NamedLogical(ApplyFlags(env, base, words).value);
            FourColumns(env, fields, e) && HoldsDevices(env, fields, words, e)
  {
    hide ApplyFlags, Split, SetBy, Paths, Aliases, Devices, NoAtgc, FsOptionsOf, MountWord, LastLowerdir;
    RestFold(env, base, words);
    BitFold(env, base, words, Logical);
    assert [] + Paths(Devices(env, words)) == Paths(Devices(env, words));
    assert [] + Aliases(Devices(env, words)) == Aliases(Devices(env, words));
  }

  lemma BaseIsBlank(env: Env, fields: seq<string>)
    requires |fields| >= 4
    ensures var base := MountPart(env, fields);
            && FourColumns(env, fields, base) && base.fsOptions == FsOptionsOf(fields)
            && base.userDevices == [] && base.deviceAliased == [] && base.fsMgrFlags == {}
            && base.logicalPartitionName == "" && (forall m :: TextOf(base, m) == "")
            && (forall m :: NumberOf(base, m) == DefaultNumber(env, m, fields[2], Split(fields[3], ',')))
  {
    hide MountPart, Split, FsOptionsOf, LastLowerdir, LastReserved, MountWord, TextOf, NumberOf, DefaultNumber,
         FourColumns;
    var base := MountPart(env, fields);
    MountPartMeans(env, fields);
    forall m: TextMember
      ensures TextOf(base, m) == ""
    {
      BlankSays(env, base, base.reservedSize, m, NLength, fields[2], Split(fields[3], ','));
    }
    forall m: NumberMember
      ensures NumberOf(base, m) == DefaultNumber(env, m, fields[2], Split(fields[3], ','))
    {
      BlankSays(env, base, base.reservedSize, TVolume, m, fields[2], Split(fields[3], ','));
    }
  }

  lemma DescribedBy(env: Env, fields: seq<string>, e: Entry)
    requires |fields| >= 5
    ensures var words := Split(fields[4], ',');
            && FourColumns(env, fields, e) && HoldsBits(env, words, e) && HoldsTexts(words, e)
            && HoldsNumbers(env, fields, words, e) && HoldsDevices(env, fields, words, e)
            ==> Describes(env, fields, e)
  {
    hide FourColumns, HoldsBits, HoldsTexts, HoldsNumbers, HoldsDevices, Split;
  }

  /** A parsed line is described by its columns. */
  lemma ParsedIsDescribed(env: Env, fields: seq<string>)
    requires |fields| >= 5 && ApplyFlags(env, MountPart(env, fields), Split(fields[4], ',')).Some?
    ensures Describes(env, fields, NamedLogical(ApplyFlags(env, MountPart(env, fields), Split(fields[4], ',')).value))
  {
    hide *;
    var base, words := MountPart(env, fields), Split(fields[4], ',');
    BaseIsBlank(env, fields);
    BitsAreHeld(env, base, words);
    TextsAreHeld(env, base, words);
    NumbersAreHeld(env, base, fields, words);
    DevicesAreHeld(env, base, fields, words);
    DescribedBy(env, fields, NamedLogical(ApplyFlags(env, base, words).value));
  }

  lemma SameNumbers(e: Entry, e': Entry)
    requires forall m :: NumberOf(e, m) == NumberOf(e', m)
    ensures && e.length == e'.length && e.partnum == e'.partnum && e.swapPrio == e'.swapPrio
            && e.maxCompStreams == e'.maxCompStreams && e.zramSize == e'.zramSize
            && e.reservedSize == e'.reservedSize && e.readaheadSizeKb == e'.readaheadSizeKb
            && e.eraseBlkSize == e'.eraseBlkSize && e.logicalBlkSize == e'.logicalBlkSize
            && e.zramBackingdevSize == e'.zramBackingdevSize
  {
    assert NumberOf(e, NLength) == NumberOf(e', NLength) && NumberOf(e, NPartnum) == NumberOf(e', NPartnum);
    assert NumberOf(e, NSwapPrio) == NumberOf(e', NSwapPrio);
    assert NumberOf(e, NMaxCompStreams) == NumberOf(e', NMaxCompStreams);
    assert NumberOf(e, NZramSize) == NumberOf(e', NZramSize);
    assert NumberOf(e, NReservedSize) == NumberOf(e', NReservedSize);
    assert NumberOf(e, NReadaheadSizeKb) == NumberOf(e', NReadaheadSizeKb);
    assert NumberOf(e, NEraseBlkSize) == NumberOf(e', NEraseBlkSize);
    assert NumberOf(e, NLogicalBlkSize) == NumberOf(e', NLogicalBlkSize);
    assert NumberOf(e, NZramBackingdevSize) == NumberOf(e', NZramBackingdevSize);
  }

  lemma SameTexts(e: Entry, e': Entry)
    requires forall m :: TextOf(e, m) == TextOf(e', m)
    ensures && e.volume == e'.volume && e.encryptionOptions == e'.encryptionOptions
            && e.vbmetaPartition == e'.vbmetaPartition && e.avbKeys == e'.avbKeys
            && e.avbHashtreeDigest == e'.avbHashtreeDigest && e.metadataKeyDir == e'.metadataKeyDir
            && e.metadataEncryptionOptions == e'.metadataEncryptionOptions && e.sysfsPath == e'.sysfsPath
  {
    assert TextOf(e, TVolume) == TextOf(e', TVolume);
    assert TextOf(e, TEncryptionOptions) == TextOf(e', TEncryptionOptions);
    assert TextOf(e, TVbmetaPartition) == TextOf(e', TVbmetaPartition);
    assert TextOf(e, TAvbKeys) == TextOf(e', TAvbKeys);
    assert TextOf(e, TAvbHashtreeDigest) == TextOf(e', TAvbHashtreeDigest);
    assert TextOf(e, TMetadataKeyDir) == TextOf(e', TMetadataKeyDir);
    assert TextOf(e, TMetadataEncryption) == TextOf(e', TMetadataEncryption);
    assert TextOf(e, TSysfsPath) == TextOf(e', TSysfsPath);
  }

  /** The columns fix every member of an entry. */
  lemma DescribedIsUnique(env: Env, fields: seq<string>, e: Entry, e': Entry)
    requires |fields| >= 5 && Describes(env, fields, e) && Describes(env, fields, e')
    ensures e == e'
  {
    hide Split, SetBy, LastText, LastNumber, Paths, Aliases, Devices, NoAtgc, FsOptionsOf, MountWord,
         LastLowerdir, LastReserved, DefaultNumber, TextOf, NumberOf;
    SameTexts(e, e');
    SameNumbers(e, e');
    assert e.flags == e'.flags && e.fsMgrFlags == e'.fsMgrFlags;
  }

  lemma RejectedIs(env: Env, e: Entry, words: seq<string>)
    requires HoldsBits(env, words, e)
    ensures Rejected(env, e) <==> !(SetBy(env, Crypt, words) ==> SetBy(env, VoldManaged, words) || env.inRecovery)
  {
    hide SetBy;
  }

  lemma NamedKeepsBits(env: Env, e: Entry)
    ensures Rejected(env, NamedLogical(e)) <==> Rejected(env, e)
  {
  }

  lemma AllowedIs(env: Env, fields: seq<string>)
    requires |fields| >= 5
    ensures var words := Split(fields[4], ',');
            var applied := ApplyFlags(env, MountPart(env, fields), words);
            && (Allowed(env, words) <==> applied.Some? && !Rejected(env, applied.value))
            && (applied.Some? ==> Describes(env, fields, NamedLogical(applied.value)))
  {
    var base, words := MountPart(env, fields), Split(fields[4], ',');
    hide MountPart, Split, ApplyFlags, SomeForbidden, SetBy, Rejected, NamedLogical, HoldsBits;
    FailFold(env, base, words);
    if ApplyFlags(env, base, words).Some? {
      var e := ApplyFlags(env, base, words).value;
      ParsedIsDescribed(env, fields);
      RejectedIs(env, NamedLogical(e), words);
      NamedKeepsBits(env, e);
    }
  }

  lemma ParseFieldsBy(env: Env, fields: seq<string>)
    requires !Skipped(fields) && |fields| >= 5
    ensures var applied := ApplyFlags(env, MountPart(env, fields), Split(fields[4], ','));
            ParseFields(env, fields)
            == if applied.Some? && !Rejected(env, applied.value) then Good(NamedLogical(applied.value)) else Bad
  {
    hide MountPart, Split, ApplyFlags, Rejected, NamedLogical;
  }

  /** Nothing, or a first column that begins with a number sign. */
  predicate Comment(fields: seq<string>) {
    fields == [] || (fields[0] != "" && fields[0][0] == '#')
  }

  lemma CommentIsSkipped(fields: seq<string>)
    ensures Comment(fields) <==> Skipped(fields)
  {
  }

  /**
   The line theorem: a line gives an entry exactly when it has five columns and the
   fifth is allowed, and the entry is exactly the one its columns describe.
   */
  lemma LineMeans(env: Env, fields: seq<string>, e: Entry)
    ensures (ParseFields(env, fields) == Good(e)
        <==> !Comment(fields) && |fields| >= 5 && Allowed(env, Split(fields[4], ',')) && Describes(env, fields, e))
    ensures ParseFields(env, fields) == Skip <==> Comment(fields)
  {
    CommentIsSkipped(fields);
    if !Skipped(fields) && |fields| >= 5 {
      hide *;
      ParseFieldsBy(env, fields);
      AllowedIs(env, fields);
      if Allowed(env, Split(fields[4], ',')) && Describes(env, fields, e) {
        var applied := ApplyFlags(env, MountPart(env, fields), Split(fields[4], ','));
        DescribedIsUnique(env, fields, e, NamedLogical(applied.value));
      }
    }
  }

  // ---------------------------------------------------------------------
  // A file
  // ---------------------------------------------------------------------

  /** A line of /proc/mounts says what its first four columns say and nothing else. */
  ghost predicate MountsDescribe(env: Env, fields: seq<string>, e: Entry)
    requires |fields| >= 4
  {
    var options := Split(fields[3], ',');
    && FourColumns(env, fields, e)
    && e == BLANK.(blkDevice := fields[0], mountPoint := fields[1], fsType := fields[2], flags := e.flags,
                   fsOptions := FsOptionsOf(fields), lowerdir := LastLowerdir(options),
                   reservedSize := if fields[2] == "f2fs" then LastReserved(env, options) else 0)
  }

  /** The columns of a line give the entry. */
  ghost predicate Gives(env: Env, procMounts: bool, fields: seq<string>, e: Entry) {
    if procMounts then |fields| >= 4 && MountsDescribe(env, fields, e)
    else |fields| >= 5 && Allowed(env, Split(fields[4], ',')) && Describes(env, fields, e)
  }

  lemma MountsAreUnique(env: Env, fields: seq<string>, e: Entry, e': Entry)
    requires |fields| >= 4 && MountsDescribe(env, fields, e) && MountsDescribe(env, fields, e')
    ensures e == e'
  {
    hide Split, FsOptionsOf, LastLowerdir, LastReserved, MountWord;
    assert e.flags == e'.flags;
  }

  lemma MountsLineMeans(env: Env, line: string, e: Entry)
    ensures var fields := Tokens(line, Blank);
            ParseMountsLine(env, line) == Good(e) <==> !Comment(fields) && Gives(env, true, fields, e)
    ensures ParseMountsLine(env, line) == Skip <==> Comment(Tokens(line, Blank))
  {
    var fields := Tokens(line, Blank);
    CommentIsSkipped(fields);
    if !Skipped(fields) && |fields| >= 4 {
      hide MountPart, Split, FsOptionsOf, LastLowerdir, LastReserved, MountWord, Tokens, FourColumns, Comment, Skipped;
      MountPartMeans(env, fields);
      assert MountsDescribe(env, fields, MountPart(env, fields));
      if MountsDescribe(env, fields, e) {
        MountsAreUnique(env, fields, e, MountPart(env, fields));
      }
    }
  }

  lemma AnyLineMeans(env: Env, procMounts: bool, line: string, e: Entry)
    ensures var fields, r := Tokens(line, Blank), ParseAnyLine(env, procMounts, line);
            && (r == Good(e) <==> !Comment(fields) && Gives(env, procMounts, fields, e))
            && (r == Skip <==> Comment(fields))
  {
    hide Tokens, ParseMountsLine, ParseFields, Describes, Allowed, MountsDescribe, Comment, Split;
    if procMounts {
      MountsLineMeans(env, line, e);
    } else {
      LineMeans(env, Tokens(line, Blank), e);
    }
  }

  /** How many of the first i lines are not comments. */
  function Before(lines: seq<string>, i: nat): (n: nat)
    requires i <= |lines|
    ensures n <= i
  {
    if i == 0 then 0 else Before(lines, i - 1) + if Comment(Tokens(lines[i - 1], Blank)) then 0 else 1
  }

  /** Every line that is not a comment gives its entry, in order, and there are no others. */
  ghost predicate Lists(env: Env, procMounts: bool, lines: seq<string>, es: seq<Entry>) {
    && |es| == Before(lines, |lines|)
    && forall i | 0 <= i < |lines| && !Comment(Tokens(lines[i], Blank)) ::
         Before(lines, i) < |es| && Gives(env, procMounts, Tokens(lines[i], Blank), es[Before(lines, i)])
  }

  lemma {:induction false} BeforeIsLocal(a: seq<string>, b: seq<string>, i: nat)
    requires i <= |a| <= |b| && a == b[..|a|]
    ensures Before(a, i) == Before(b, i)
    decreases i
  {
    hide Comment, Tokens;
    if i > 0 {
      BeforeIsLocal(a, b, i - 1);
    }
  }

  lemma {:induction false} BeforeGrows(lines: seq<string>, i: nat, j: nat)
    requires i < j <= |lines| && !Comment(Tokens(lines[i], Blank))
    ensures Before(lines, i) < Before(lines, j)
    decreases j
  {
    hide Comment, Tokens;
    if i < j - 1 {
      BeforeGrows(lines, i, j - 1);
    }
  }

  lemma ListsWithComment(env: Env, procMounts: bool, lines: seq<string>, es: seq<Entry>)
    requires lines != [] && Comment(Tokens(lines[|lines| - 1], Blank))
    ensures Lists(env, procMounts, lines, es) <==> Lists(env, procMounts, lines[..|lines| - 1], es)
  {
    hide Comment, Tokens, Gives;
    var init := lines[..|lines| - 1];
    forall i | 0 <= i <= |init|
      ensures Before(init, i) == Before(lines, i)
    {
      BeforeIsLocal(init, lines, i);
    }
    assert forall i | 0 <= i < |init| :: init[i] == lines[i];
  }

  lemma PositionsKept(lines: seq<string>, i: nat)
    requires lines != [] && i < |lines| - 1
    ensures var init := lines[..|lines| - 1];
            && init[i] == lines[i] && Before(init, i) == Before(lines, i)
            && (!Comment(Tokens(lines[i], Blank)) ==> Before(lines, i) < Before(lines, |lines| - 1))
  {
    hide Comment, Tokens;
    BeforeIsLocal(lines[..|lines| - 1], lines, i);
    if !Comment(Tokens(lines[i], Blank)) {
      BeforeGrows(lines, i, |lines| - 1);
    }
  }

  lemma CountWithEntry(lines: seq<string>)
    requires lines != [] && !Comment(Tokens(lines[|lines| - 1], Blank))
    ensures var init := lines[..|lines| - 1];
            Before(lines, |lines| - 1) == Before(init, |init|) && Before(lines, |lines|) == Before(init, |init|) + 1
  {
    hide Comment, Tokens;
    BeforeIsLocal(lines[..|lines| - 1], lines, |lines| - 1);
  }

  lemma ListsFront(env: Env, procMounts: bool, lines: seq<string>, es: seq<Entry>)
    requires lines != [] && !Comment(Tokens(lines[|lines| - 1], Blank)) && Lists(env, procMounts, lines, es)
    ensures && es != [] && Lists(env, procMounts, lines[..|lines| - 1], es[..|es| - 1])
            && Gives(env, procMounts, Tokens(lines[|lines| - 1], Blank), es[|es| - 1])
  {
    CountWithEntry(lines);
    hide Comment, Tokens, Gives, Before;
    var init := lines[..|lines| - 1];
    forall i | 0 <= i < |init| && !Comment(Tokens(init[i], Blank))
      ensures && Before(init, i) < |es| - 1
              && Gives(env, procMounts, Tokens(init[i], Blank), es[..|es| - 1][Before(init, i)])
    {
      PositionsKept(lines, i);
    }
  }

  lemma ListedAt(env: Env, procMounts: bool, lines: seq<string>, es: seq<Entry>, i: nat)
    requires Lists(env, procMounts, lines, es) && i < |lines| && !Comment(Tokens(lines[i], Blank))
    ensures Before(lines, i) < |es| && Gives(env, procMounts, Tokens(lines[i], Blank), es[Before(lines, i)])
  {
    hide Comment, Tokens, Gives, Before;
  }

  lemma ListsBackAt(env: Env, procMounts: bool, lines: seq<string>, es: seq<Entry>, i: nat)
    requires i + 1 < |lines| && !Comment(Tokens(lines[i], Blank)) && es != []
    requires Lists(env, procMounts, lines[..|lines| - 1], es[..|es| - 1])
    ensures Before(lines, i) < |es| && Gives(env, procMounts, Tokens(lines[i], Blank), es[Before(lines, i)])
  {
    hide *;
    var init, front := lines[..|lines| - 1], es[..|es| - 1];
    PositionsKept(lines, i);
    ListedAt(env, procMounts, init, front, i);
    assert front[Before(init, i)] == es[Before(lines, i)];
  }

  lemma ListsBack(env: Env, procMounts: bool, lines: seq<string>, es: seq<Entry>)
    requires lines != [] && !Comment(Tokens(lines[|lines| - 1], Blank)) && es != []
    requires Lists(env, procMounts, lines[..|lines| - 1], es[..|es| - 1])
    requires Gives(env, procMounts, Tokens(lines[|lines| - 1], Blank), es[|es| - 1])
    ensures Lists(env, procMounts, lines, es)
  {
    CountWithEntry(lines);
    CountedEntries(env, procMounts, lines[..|lines| - 1], es[..|es| - 1]);
    hide Comment, Tokens, Gives, Before;
    forall i | 0 <= i < |lines| && !Comment(Tokens(lines[i], Blank))
      ensures Before(lines, i) < |es| && Gives(env, procMounts, Tokens(lines[i], Blank), es[Before(lines, i)])
    {
      hide Lists;
      if i < |lines| - 1 {
        ListsBackAt(env, procMounts, lines, es, i);
      }
    }
  }

  lemma CountedEntries(env: Env, procMounts: bool, lines: seq<string>, es: seq<Entry>)
    requires Lists(env, procMounts, lines, es)
    ensures |es| == Before(lines, |lines|)
  {
    hide Comment, Tokens, Gives, Before;
  }

  lemma ListsWithEntry(env: Env, procMounts: bool, lines: seq<string>, es: seq<Entry>)
    requires lines != [] && !Comment(Tokens(lines[|lines| - 1], Blank))
    ensures (Lists(env, procMounts, lines, es)
        <==> && es != [] && Lists(env, procMounts, lines[..|lines| - 1], es[..|es| - 1])
             && Gives(env, procMounts, Tokens(lines[|lines| - 1], Blank), es[|es| - 1]))
  {
    hide *;
    if Lists(env, procMounts, lines, es) {
      ListsFront(env, procMounts, lines, es);
    } else if && es != [] && Lists(env, procMounts, lines[..|lines| - 1], es[..|es| - 1])
              && Gives(env, procMounts, Tokens(lines[|lines| - 1], Blank), es[|es| - 1]) {
      ListsBack(env, procMounts, lines, es);
    }
  }

  lemma CollectSome(before: Option<seq<Entry>>, line: Line, es: seq<Entry>)
    ensures (Collect(before, line) == Some(es)
        <==> before.Some? && ((line == Skip && before.value == es)
             || (line.Good? && es != [] && before.value == es[..|es| - 1] && line.entry == es[|es| - 1])))
  {
    if before.Some? && line.Good? {
      assert (before.value + [line.entry])[..|before.value|] == before.value;
    }
    if es != [] {
      assert es == es[..|es| - 1] + [es[|es| - 1]];
    }
  }

  lemma {:induction false} LinesMean(env: Env, procMounts: bool, lines: seq<string>, es: seq<Entry>)
    ensures ParseAnyLines(env, procMounts, lines) == Some(es) <==> Lists(env, procMounts, lines, es)
    decreases |lines|
  {
    if lines != [] {
      var init, l := lines[..|lines| - 1], lines[|lines| - 1];
      var before, r := ParseAnyLines(env, procMounts, init), ParseAnyLine(env, procMounts, l);
      assert ParseAnyLines(env, procMounts, lines) == Collect(before, r);
      hide *;
      CollectSome(before, r, es);
      if Comment(Tokens(l, Blank)) {
        ListsWithComment(env, procMounts, lines, es);
        AnyLineMeans(env, procMounts, l, BLANK);
        LinesMean(env, procMounts, init, es);
      } else {
        ListsWithEntry(env, procMounts, lines, es);
        if es == [] {
          AnyLineMeans(env, procMounts, l, BLANK);
        } else {
          AnyLineMeans(env, procMounts, l, es[|es| - 1]);
          LinesMean(env, procMounts, init, es[..|es| - 1]);
        }
      }
    }
  }

  /**
   The file theorem: parsing succeeds exactly when at least one line is not a comment
   and all those lines give an entry, and the result is exactly these entries in order.
   */
  lemma FileMeans(env: Env, procMounts: bool, text: string, es: seq<Entry>)
    ensures (ParseAny(env, procMounts, text) == Some(es)
        <==> es != [] && Lists(env, procMounts, Split(text, '\n'), es))
  {
    hide Split, ParseAnyLines, Lists;
    LinesMean(env, procMounts, Split(text, '\n'), es);
  }
}

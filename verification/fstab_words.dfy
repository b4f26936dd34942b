/** The words of the fourth and the fifth column of an fstab, and which flag each of them is. */
module FstabWords {
  import opened Wrappers
  import opened Sequences
  import opened FstabTypes
  import opened Fstab

  /** The word that sets a bit and does nothing else. */
  function Keyword(bit: FsMgrFlag): Option<string> {
    match bit
    case Wait => Some("wait")
    case Check => Some("check")
    case NonRemovable => Some("nonremovable")
    case RecoveryOnly => Some("recoveryonly")
    case NoEmulatedSd => Some("noemulatedsd")
    case NoTrim => Some("notrim")
    case Formattable => Some("formattable")
    case SlotSelect => Some("slotselect")
    case LateMount => Some("latemount")
    case NoFail => Some("nofail")
    case Quota => Some("quota")
    case Avb => Some("avb")
    case Logical => Some("logical")
    case CheckpointBlk => Some("checkpoint=block")
    case CheckpointFs => Some("checkpoint=fs")
    case FirstStageMount => Some("first_stage_mount")
    case SlotSelectOther => Some("slotselect_other")
    case FsVerity => Some("fsverity")
    case ExtMetaCsum => Some("metadata_csum")
    case FsCompress => Some("fscompress")
    case OverlayfsRemoveMissingLowerdir => Some("overlayfs_remove_missing_lowerdir")
    case Crypt => None
    case VoldManaged => None
    case FileEncryption => None
    case IsZoned => None
  }

  function MountWord(bit: MountBit): string {
    match bit
    case NoAtime => "noatime"
    case NoExec => "noexec"
    case NoSuid => "nosuid"
    case NoDev => "nodev"
    case NoDirAtime => "nodiratime"
    case ReadOnly => "ro"
    case Synchronous => "sync"
    case Remount => "remount"
    case Bind => "bind"
    case Rec => "rec"
    case Unbindable => "unbindable"
    case Private => "private"
    case Slave => "slave"
    case Shared => "shared"
    case LazyTime => "lazytime"
    case NoSymFollow => "nosymfollow"
  }

  // ---------------------------------------------------------------------
  // Keywords
  // ---------------------------------------------------------------------

  lemma EarlyKeyword(w: string)
    ensures EarlySimpleFlag(w).Some? ==> Keyword(EarlySimpleFlag(w).value) == Some(w)
  {
  }

  lemma MiddleKeyword(w: string)
    ensures MiddleSimpleFlag(w).Some? ==> Keyword(MiddleSimpleFlag(w).value) == Some(w)
  {
  }

  lemma LateKeyword(w: string)
    ensures LateSimpleFlag(w).Some? ==> Keyword(LateSimpleFlag(w).value) == Some(w)
  {
  }

  predicate TestedEarly(bit: FsMgrFlag) {
    bit == Wait || bit == Check || bit == NonRemovable || bit == RecoveryOnly || bit == NoEmulatedSd
    || bit == NoTrim || bit == Formattable || bit == SlotSelect || bit == LateMount || bit == NoFail
  }

  predicate TestedLate(bit: FsMgrFlag) {
    bit == FirstStageMount || bit == SlotSelectOther || bit == FsVerity || bit == ExtMetaCsum
    || bit == FsCompress || bit == OverlayfsRemoveMissingLowerdir
  }

  lemma EarlyBit(bit: FsMgrFlag)
    requires TestedEarly(bit)
    ensures EarlySimpleFlag(Keyword(bit).value) == Some(bit)
  {
  }

  lemma MiddleBit(bit: FsMgrFlag)
    requires !TestedEarly(bit) && !TestedLate(bit) && Keyword(bit).Some?
    ensures MiddleSimpleFlag(Keyword(bit).value) == Some(bit)
    ensures EarlySimpleFlag(Keyword(bit).value) == None
  {
  }

  lemma LateBit(bit: FsMgrFlag)
    requires TestedLate(bit)
    ensures LateSimpleFlag(Keyword(bit).value) == Some(bit)
  {
  }

  lemma LateBitIsNotEarly(bit: FsMgrFlag)
    requires TestedLate(bit)
    ensures EarlySimpleFlag(Keyword(bit).value) == None
  {
  }

  lemma LateBitIsNotMiddle(bit: FsMgrFlag)
    requires TestedLate(bit)
    ensures MiddleSimpleFlag(Keyword(bit).value) == None
  {
  }

  lemma KeywordIsSimple(bit: FsMgrFlag)
    requires Keyword(bit).Some?
    ensures SimpleFlag(Keyword(bit).value) == Some(bit)
  {
    hide EarlySimpleFlag, MiddleSimpleFlag, LateSimpleFlag, Keyword, TestedEarly, TestedLate;
    if TestedEarly(bit) {
      EarlyBit(bit);
    } else if TestedLate(bit) {
      LateBit(bit);
      LateBitIsNotEarly(bit);
      LateBitIsNotMiddle(bit);
    } else {
      MiddleBit(bit);
    }
  }

  /** The parser takes a word for the plain flag of a bit exactly when it is the keyword of the bit. */
  lemma SimpleFlags(w: string, bit: FsMgrFlag)
    ensures SimpleFlag(w) == Some(bit) <==> Keyword(bit) == Some(w)
  {
    hide EarlySimpleFlag, MiddleSimpleFlag, LateSimpleFlag, Keyword;
    EarlyKeyword(w);
    MiddleKeyword(w);
    LateKeyword(w);
    if Keyword(bit) == Some(w) {
      KeywordIsSimple(bit);
    }
  }

  lemma NoKeyword(bit: FsMgrFlag)
    ensures Keyword(bit) != Some("") && Keyword(bit) != Some("defaults")
  {
  }

  lemma LateKeywordIsPlain(bit: FsMgrFlag)
    requires TestedLate(bit)
    ensures '=' !in Keyword(bit).value
  {
  }

  lemma EarlierKeywordIsPlain(bit: FsMgrFlag)
    requires !TestedLate(bit) && Keyword(bit).Some? && '=' in Keyword(bit).value
    ensures bit == CheckpointBlk || bit == CheckpointFs
  {
  }

  lemma MountWordIsListed(bit: MountBit)
    ensures MountFlagValue(MountWord(bit)) == OneBit(bit)
  {
  }

  lemma ListedIsMountWord(w: string)
    ensures MountFlagValue(w).OneBit? ==> MountWord(MountFlagValue(w).bit) == w
  {
  }

  /** A word of the fourth column sets a bit exactly when it is the word of the bit. */
  lemma MountBits(w: string, bit: MountBit)
    ensures MountFlagValue(w) == OneBit(bit) <==> w == MountWord(bit)
  {
    hide MountFlagValue, MountWord;
    MountWordIsListed(bit);
    ListedIsMountWord(w);
  }

  /** The words of the fourth column that set nothing. */
  lemma MountWithoutBit(w: string)
    ensures MountFlagValue(w) == NoBit <==> w == "rw" || w == "defaults"
  {
  }

  // ---------------------------------------------------------------------
  // Words with an argument
  // ---------------------------------------------------------------------

  function Five(w: string): (char, char, char, char, char)
    requires |w| >= 5
  {
    (w[0], w[1], w[2], w[3], w[4])
  }

  lemma Begins(prefix: string, w: string)
    requires |prefix| >= 5
    ensures prefix <= w ==> |w| >= 5 && Five(w) == Five(prefix)
  {
  }

  lemma LongEnough(prefix: string, w: string)
    requires prefix != "" && prefix[|prefix| - 1] == '='
    ensures prefix <= w ==> '=' in w
  {
    if prefix <= w {
      assert w[|prefix| - 1] == '=';
    }
  }

  lemma CheckpointFives()
    ensures Five("checkpoint=block") == ('c', 'h', 'e', 'c', 'k') == Five("checkpoint=fs")
  {
  }

  /** No word with an argument is a plain flag. */
  lemma WithArgumentIsNotSimple(w: string)
    requires '=' in w && (|w| >= 5 ==> Five(w).0 != 'c')
    ensures w != "" && w != "defaults" && SimpleFlag(w) == None
  {
    if SimpleFlag(w).Some? {
      var bit := SimpleFlag(w).value;
      SimpleFlags(w, bit);
      CheckpointFives();
      hide SimpleFlag;
      CheckpointWords(bit);
    }
  }

  lemma CheckpointWords(bit: FsMgrFlag)
    requires Keyword(bit).Some? && '=' in Keyword(bit).value
    ensures |Keyword(bit).value| >= 5 && Five(Keyword(bit).value).0 == 'c'
  {
    if TestedLate(bit) {
      LateKeywordIsPlain(bit);
    } else {
      EarlierKeywordIsPlain(bit);
    }
  }

  /** The argument of a word begins behind its first equal sign, which ends the prefix. */
  lemma ArgIsAfter(prefix: string, w: string)
    requires prefix <= w && prefix != "" && prefix[|prefix| - 1] == '=' && '=' !in prefix[..|prefix| - 1]
    ensures Arg(w) == w[|prefix|..]
  {
    var n, i := |prefix| - 1, IndexOf(w, '=');
    assert w[n] == prefix[n] == '=';
    assert forall k | 0 <= k < n :: w[k] == prefix[..n][k];
  }

  /** The prefixes of the words with an argument, in the order they are tried. */
  datatype Kind =
    | KEncryptable | KForceEncrypt | KForceFdeOrFbe | KVoldManaged | KLength | KSwapPrio | KZramSize
    | KFileEncryption | KMaxCompStreams | KReservedSize | KReadaheadSizeKb | KEraseBlk | KLogicalBlk
    | KAvbKeys | KAvbHashtreeDigest | KKeyDirectory | KMetadataEncryption | KSysfsPath
    | KZramBackingdevSize | KDevice

  function Prefix(k: Kind): string {
    match k
    case KEncryptable => "encryptable="
    case KForceEncrypt => "forceencrypt="
    case KForceFdeOrFbe => "forcefdeorfbe="
    case KVoldManaged => "voldmanaged="
    case KLength => "length="
    case KSwapPrio => "swapprio="
    case KZramSize => "zramsize="
    case KFileEncryption => "fileencryption="
    case KMaxCompStreams => "max_comp_streams="
    case KReservedSize => "reservedsize="
    case KReadaheadSizeKb => "readahead_size_kb="
    case KEraseBlk => "eraseblk="
    case KLogicalBlk => "logicalblk="
    case KAvbKeys => "avb_keys="
    case KAvbHashtreeDigest => "avb_hashtree_digest="
    case KKeyDirectory => "keydirectory="
    case KMetadataEncryption => "metadata_encryption="
    case KSysfsPath => "sysfs_path="
    case KZramBackingdevSize => "zram_backingdev_size="
    case KDevice => "device="
  }

  /** What a word of a kind does, given its argument. */
  function FlagOf(k: Kind, arg: string): Flag {
    match k
    case KEncryptable => Encryptable
    case KForceEncrypt => Unsupported
    case KForceFdeOrFbe => Unsupported
    case KVoldManaged => VoldManagedAs(arg)
    case KLength => LengthOf(arg)
    case KSwapPrio => SwapPrio(arg)
    case KZramSize => ZramSize(arg)
    case KFileEncryption => FileEncryptionWith(arg)
    case KMaxCompStreams => MaxCompStreams(arg)
    case KReservedSize => ReservedSize(arg)
    case KReadaheadSizeKb => ReadaheadSizeKb(arg)
    case KEraseBlk => EraseBlk(arg)
    case KLogicalBlk => LogicalBlk(arg)
    case KAvbKeys => AvbKeys(arg)
    case KAvbHashtreeDigest => AvbHashtreeDigest(arg)
    case KKeyDirectory => KeyDirectory(arg)
    case KMetadataEncryption => MetadataEncryption(arg)
    case KSysfsPath => SysfsPath(arg)
    case KZramBackingdevSize => ZramBackingdevSize(arg)
    case KDevice => Device(arg)
  }

  function FiveOf(k: Kind): (char, char, char, char, char) {
    match k
    case KEncryptable => ('e', 'n', 'c', 'r', 'y')
    case KForceEncrypt => ('f', 'o', 'r', 'c', 'e')
    case KForceFdeOrFbe => ('f', 'o', 'r', 'c', 'e')
    case KVoldManaged => ('v', 'o', 'l', 'd', 'm')
    case KLength => ('l', 'e', 'n', 'g', 't')
    case KSwapPrio => ('s', 'w', 'a', 'p', 'p')
    case KZramSize => ('z', 'r', 'a', 'm', 's')
    case KFileEncryption => ('f', 'i', 'l', 'e', 'e')
    case KMaxCompStreams => ('m', 'a', 'x', '_', 'c')
    case KReservedSize => ('r', 'e', 's', 'e', 'r')
    case KReadaheadSizeKb => ('r', 'e', 'a', 'd', 'a')
    case KEraseBlk => ('e', 'r', 'a', 's', 'e')
    case KLogicalBlk => ('l', 'o', 'g', 'i', 'c')
    case KAvbKeys => ('a', 'v', 'b', '_', 'k')
    case KAvbHashtreeDigest => ('a', 'v', 'b', '_', 'h')
    case KKeyDirectory => ('k', 'e', 'y', 'd', 'i')
    case KMetadataEncryption => ('m', 'e', 't', 'a', 'd')
    case KSysfsPath => ('s', 'y', 's', 'f', 's')
    case KZramBackingdevSize => ('z', 'r', 'a', 'm', '_')
    case KDevice => ('d', 'e', 'v', 'i', 'c')
  }

  lemma PrefixStarts(k: Kind)
    ensures |Prefix(k)| >= 5 && Five(Prefix(k)) == FiveOf(k)
  {
  }

  predicate EndsInEquals(p: string) {
    |p| >= 5 && p[|p| - 1] == '=' && '=' !in p[..|p| - 1]
  }

  predicate InFirstSeven(k: Kind) {
    k == KEncryptable || k == KForceEncrypt || k == KForceFdeOrFbe || k == KVoldManaged || k == KLength
    || k == KSwapPrio || k == KZramSize
  }

  predicate InLastSeven(k: Kind) {
    k == KAvbKeys || k == KAvbHashtreeDigest || k == KKeyDirectory || k == KMetadataEncryption || k == KSysfsPath
    || k == KZramBackingdevSize || k == KDevice
  }

  lemma FirstSevenEnd(k: Kind)
    requires InFirstSeven(k)
    ensures EndsInEquals(Prefix(k))
  {
  }

  lemma MiddleSixEnd(k: Kind)
    requires !InFirstSeven(k) && !InLastSeven(k)
    ensures EndsInEquals(Prefix(k))
  {
  }

  lemma LastSevenEnd(k: Kind)
    requires InLastSeven(k) && k != KZramBackingdevSize && k != KAvbHashtreeDigest && k != KMetadataEncryption
    ensures EndsInEquals(Prefix(k))
  {
  }

  lemma LongestEnd(k: Kind)
    requires k == KZramBackingdevSize || k == KAvbHashtreeDigest || k == KMetadataEncryption
    ensures EndsInEquals(Prefix(k))
  {
  }

  lemma PrefixEnds(k: Kind)
    ensures EndsInEquals(Prefix(k))
  {
    hide *;
    if InFirstSeven(k) {
      FirstSevenEnd(k);
    } else if k == KZramBackingdevSize || k == KAvbHashtreeDigest || k == KMetadataEncryption {
      LongestEnd(k);
    } else if InLastSeven(k) {
      LastSevenEnd(k);
    } else {
      MiddleSixEnd(k);
    }
  }

  lemma OneKind(j: Kind, k: Kind, w: string)
    requires Prefix(j) <= w && Prefix(k) <= w
    ensures FiveOf(j) == FiveOf(k)
  {
    hide Prefix, FiveOf, Five;
    PrefixStarts(j);
    PrefixStarts(k);
    Begins(Prefix(j), w);
    Begins(Prefix(k), w);
  }

  predicate Forced(k: Kind) {
    k == KForceEncrypt || k == KForceFdeOrFbe
  }

  lemma FivesDiffer(j: Kind, k: Kind)
    requires FiveOf(j) == FiveOf(k)
    ensures j == k || (Forced(j) && Forced(k))
  {
  }

  lemma FivesAreForeign(k: Kind)
    ensures FiveOf(k).0 != 'c' && (FiveOf(k).0 == 'a' ==> k == KAvbKeys || k == KAvbHashtreeDigest)
  {
  }

  predicate Fits(k: Kind, w: string): (b: bool)
    ensures b ==> |Prefix(k)| <= |w|
  {
    Prefix(k) <= w
  }

  predicate FileEncryptionAlone(w: string) {
    w == "fileencryption"
  }

  predicate BeginsAvb(w: string) {
    "avb" <= w
  }

  /** The kind a word has for the early tests. */
  function EarlyKind(w: string): Option<Kind> {
    if Fits(KEncryptable, w) then Some(KEncryptable)
    else if Fits(KForceEncrypt, w) || Fits(KForceFdeOrFbe, w) then Some(KForceEncrypt)
    else if Fits(KVoldManaged, w) then Some(KVoldManaged)
    else if Fits(KLength, w) then Some(KLength)
    else if Fits(KSwapPrio, w) then Some(KSwapPrio)
    else if Fits(KZramSize, w) then Some(KZramSize)
    else if Fits(KFileEncryption, w) || FileEncryptionAlone(w) then Some(KFileEncryption)
    else if Fits(KMaxCompStreams, w) then Some(KMaxCompStreams)
    else if Fits(KReservedSize, w) then Some(KReservedSize)
    else if Fits(KReadaheadSizeKb, w) then Some(KReadaheadSizeKb)
    else if Fits(KEraseBlk, w) then Some(KEraseBlk)
    else if Fits(KLogicalBlk, w) then Some(KLogicalBlk)
    else None
  }

  function LateKind(w: string): Option<Kind> {
    if Fits(KAvbKeys, w) then Some(KAvbKeys)
    else if Fits(KAvbHashtreeDigest, w) then Some(KAvbHashtreeDigest)
    else if BeginsAvb(w) then None
    else if Fits(KKeyDirectory, w) then Some(KKeyDirectory)
    else if Fits(KMetadataEncryption, w) then Some(KMetadataEncryption)
    else if Fits(KSysfsPath, w) then Some(KSysfsPath)
    else if Fits(KZramBackingdevSize, w) then Some(KZramBackingdevSize)
    else if Fits(KDevice, w) then Some(KDevice)
    else None
  }

  lemma EarlyFits(w: string)
    ensures Fits(KEncryptable, w) == ("encryptable=" <= w) && Fits(KForceEncrypt, w) == ("forceencrypt=" <= w)
    ensures Fits(KForceFdeOrFbe, w) == ("forcefdeorfbe=" <= w) && Fits(KVoldManaged, w) == ("voldmanaged=" <= w)
    ensures Fits(KLength, w) == ("length=" <= w) && Fits(KSwapPrio, w) == ("swapprio=" <= w)
    ensures Fits(KZramSize, w) == ("zramsize=" <= w) && Fits(KFileEncryption, w) == ("fileencryption=" <= w)
    ensures Fits(KMaxCompStreams, w) == ("max_comp_streams=" <= w) && Fits(KReservedSize, w) == ("reservedsize=" <= w)
    ensures Fits(KReadaheadSizeKb, w) == ("readahead_size_kb=" <= w) && Fits(KEraseBlk, w) == ("eraseblk=" <= w)
    ensures Fits(KLogicalBlk, w) == ("logicalblk=" <= w)
  {
  }

  lemma LateFits(w: string)
    ensures Fits(KAvbKeys, w) == ("avb_keys=" <= w) && Fits(KAvbHashtreeDigest, w) == ("avb_hashtree_digest=" <= w)
    ensures Fits(KKeyDirectory, w) == ("keydirectory=" <= w)
    ensures Fits(KMetadataEncryption, w) == ("metadata_encryption=" <= w)
    ensures Fits(KSysfsPath, w) == ("sysfs_path=" <= w)
    ensures Fits(KZramBackingdevSize, w) == ("zram_backingdev_size=" <= w) && Fits(KDevice, w) == ("device=" <= w)
  {
  }

  lemma EarlyFlags(arg: string)
    ensures FlagOf(KEncryptable, arg) == Encryptable && FlagOf(KForceEncrypt, arg) == Unsupported
    ensures FlagOf(KVoldManaged, arg) == VoldManagedAs(arg) && FlagOf(KLength, arg) == LengthOf(arg)
    ensures FlagOf(KSwapPrio, arg) == SwapPrio(arg) && FlagOf(KZramSize, arg) == ZramSize(arg)
    ensures FlagOf(KFileEncryption, arg) == FileEncryptionWith(arg)
    ensures FlagOf(KMaxCompStreams, arg) == MaxCompStreams(arg)
    ensures FlagOf(KReservedSize, arg) == ReservedSize(arg) && FlagOf(KReadaheadSizeKb, arg) == ReadaheadSizeKb(arg)
    ensures FlagOf(KEraseBlk, arg) == EraseBlk(arg) && FlagOf(KLogicalBlk, arg) == LogicalBlk(arg)
  {
  }

  lemma LateFlags(arg: string)
    ensures FlagOf(KAvbKeys, arg) == AvbKeys(arg) && FlagOf(KAvbHashtreeDigest, arg) == AvbHashtreeDigest(arg)
    ensures FlagOf(KKeyDirectory, arg) == KeyDirectory(arg)
    ensures FlagOf(KMetadataEncryption, arg) == MetadataEncryption(arg)
    ensures FlagOf(KSysfsPath, arg) == SysfsPath(arg) && FlagOf(KDevice, arg) == Device(arg)
    ensures FlagOf(KZramBackingdevSize, arg) == ZramBackingdevSize(arg)
  {
  }

  lemma EarlyByKind(w: string, arg: string)
    ensures (EarlyArgFlag(w, arg) == match EarlyKind(w) case None => None case Some(k) => Some(FlagOf(k, arg)))
  {
    EarlyFits(w);
    EarlyFlags(arg);
    hide Fits, Prefix, FlagOf;
  }

  lemma LateByKind(w: string, arg: string)
    ensures (LateArgFlag(w, arg)
          == match LateKind(w)
             case None => (if BeginsAvb(w) then AvbOf(arg) else Nothing)
             case Some(k) => FlagOf(k, arg))
  {
    LateFits(w);
    LateFlags(arg);
    hide Fits, Prefix, FlagOf;
  }

  lemma WordStarts(k: Kind, w: string)
    requires Fits(k, w)
    ensures |w| >= 5 && w[0] == FiveOf(k).0 && '=' in w
  {
    hide Prefix, FiveOf;
    PrefixStarts(k);
    PrefixEnds(k);
    Begins(Prefix(k), w);
    LongEnough(Prefix(k), w);
  }

  lemma OtherKinds(k: Kind, w: string, j: Kind)
    requires Fits(j, w) && Fits(k, w)
    ensures j == k || (Forced(j) && Forced(k))
  {
    hide Prefix, FiveOf;
    OneKind(j, k, w);
    FivesDiffer(j, k);
  }

  lemma NotAlone(k: Kind, w: string)
    requires Fits(k, w)
    ensures !FileEncryptionAlone(w) && (BeginsAvb(w) ==> k == KAvbKeys || k == KAvbHashtreeDigest)
  {
    WordStarts(k, w);
    FivesAreForeign(k);
    hide Fits, Prefix, FiveOf;
  }

  lemma EarlyKindIs(k: Kind, w: string)
    requires Fits(k, w)
    ensures EarlyKind(w).Some? ==> EarlyKind(w).value == k || (Forced(k) && Forced(EarlyKind(w).value))
    ensures EarlyKind(w).None? ==> InLastSeven(k)
  {
    hide Fits, FileEncryptionAlone, Prefix;
    NotAlone(k, w);
    if EarlyKind(w).Some? {
      var j := EarlyKind(w).value;
      if Fits(j, w) {
        OtherKinds(k, w, j);
      } else {
        OtherKinds(k, w, KForceFdeOrFbe);
      }
    }
  }

  lemma LateKindIs(k: Kind, w: string)
    requires Fits(k, w) && InLastSeven(k)
    ensures LateKind(w) == Some(k)
  {
    hide Fits, BeginsAvb, Prefix;
    NotAlone(k, w);
    if LateKind(w).Some? {
      OtherKinds(k, w, LateKind(w).value);
    }
  }

  lemma ForcedFlags(j: Kind, k: Kind, arg: string)
    requires Forced(j) && Forced(k)
    ensures FlagOf(j, arg) == FlagOf(k, arg)
  {
  }

  /** A word that begins with the prefix of a kind is taken for that kind. */
  lemma WordOfKind(k: Kind, w: string)
    requires Prefix(k) <= w
    ensures Classify(w) == FlagOf(k, w[|Prefix(k)|..])
  {
    var arg := Arg(w);
    assert Fits(k, w);
    hide Prefix, FiveOf, FlagOf, EarlyArgFlag, LateArgFlag, SimpleFlag, Arg, EarlyKind, LateKind, Forced, InLastSeven;
    PrefixEnds(k);
    WordStarts(k, w);
    FivesAreForeign(k);
    WithArgumentIsNotSimple(w);
    ArgIsAfter(Prefix(k), w);
    EarlyByKind(w, arg);
    EarlyKindIs(k, w);
    if EarlyKind(w).Some? {
      if EarlyKind(w).value != k {
        ForcedFlags(EarlyKind(w).value, k, arg);
      }
    } else {
      LateKindIs(k, w);
      LateByKind(w, arg);
    }
  }

  // ---------------------------------------------------------------------
  // All words
  // ---------------------------------------------------------------------

  lemma PlainWord(bit: FsMgrFlag, w: string)
    requires Keyword(bit) == Some(w)
    ensures Classify(w) == Simple(bit)
  {
    hide SimpleFlag, Keyword;
    SimpleFlags(w, bit);
    NoKeyword(bit);
  }

  lemma NotSimple(w: string)
    requires forall bit :: Keyword(bit) != Some(w)
    ensures SimpleFlag(w) == None
  {
    hide SimpleFlag, Keyword;
    if SimpleFlag(w).Some? {
      SimpleFlags(w, SimpleFlag(w).value);
    }
  }

  lemma NoKindFits(w: string)
    requires forall k :: !Fits(k, w)
    ensures EarlyKind(w) == (if FileEncryptionAlone(w) then Some(KFileEncryption) else None) && LateKind(w) == None
  {
    hide Fits;
  }

  lemma NothingWords()
    ensures !BeginsAvb("") && !BeginsAvb("defaults") && !FileEncryptionAlone("") && !FileEncryptionAlone("defaults")
  {
    assert "defaults"[0] == 'd';
  }

  /** Words that are neither a keyword nor begin with one of the prefixes. */
  lemma OtherWord(w: string)
    requires (forall k :: !Fits(k, w)) && forall bit :: Keyword(bit) != Some(w)
    ensures (Classify(w)
          == if FileEncryptionAlone(w) then FileEncryptionWith(Arg(w))
             else if BeginsAvb(w) then AvbOf(Arg(w))
             else Nothing)
  {
    var arg := Arg(w);
    NotSimple(w);
    NoKindFits(w);
    NothingWords();
    EarlyFlags(arg);
    hide EarlyArgFlag, LateArgFlag, SimpleFlag, Arg, EarlyKind, LateKind, FlagOf, BeginsAvb, FileEncryptionAlone, Fits;
    EarlyByKind(w, arg);
    LateByKind(w, arg);
  }

  lemma NoArg(w: string)
    requires '=' !in w
    ensures Arg(w) == ""
  {
  }

  lemma AloneHasNoArg()
    ensures Arg("fileencryption") == ""
  {
    NoArg("fileencryption");
  }

  /** The argument of a word of the kind. */
  function After(k: Kind, w: string): Option<string> {
    if Fits(k, w) then Some(w[|Prefix(k)|..]) else None
  }

  /** Words that name a vbmeta partition; without an equal sign they name the empty one. */
  predicate NamesVbmeta(w: string) {
    "avb" <= w && w != "avb" && After(KAvbKeys, w).None? && After(KAvbHashtreeDigest, w).None?
  }

  predicate IsOf(k: Kind, f: Flag) {
    match k
    case KEncryptable => f.Encryptable?
    case KForceEncrypt => f.Unsupported?
    case KForceFdeOrFbe => f.Unsupported?
    case KVoldManaged => f.VoldManagedAs?
    case KLength => f.LengthOf?
    case KSwapPrio => f.SwapPrio?
    case KZramSize => f.ZramSize?
    case KFileEncryption => f.FileEncryptionWith?
    case KMaxCompStreams => f.MaxCompStreams?
    case KReservedSize => f.ReservedSize?
    case KReadaheadSizeKb => f.ReadaheadSizeKb?
    case KEraseBlk => f.EraseBlk?
    case KLogicalBlk => f.LogicalBlk?
    case KAvbKeys => f.AvbKeys?
    case KAvbHashtreeDigest => f.AvbHashtreeDigest?
    case KKeyDirectory => f.KeyDirectory?
    case KMetadataEncryption => f.MetadataEncryption?
    case KSysfsPath => f.SysfsPath?
    case KZramBackingdevSize => f.ZramBackingdevSize?
    case KDevice => f.Device?
  }

  lemma FlagIsOf(j: Kind, k: Kind, arg: string)
    ensures IsOf(j, FlagOf(k, arg)) <==> j == k || (Forced(j) && Forced(k))
  {
  }

  lemma OthersAreOfNoKind(k: Kind, bit: FsMgrFlag, arg: string)
    ensures !IsOf(k, Nothing) && !IsOf(k, Simple(bit)) && !IsOf(k, AvbOf(arg))
    ensures IsOf(k, FileEncryptionWith(arg)) <==> k == KFileEncryption
  {
  }

  /** How a word is read. */
  datatype Reading = OfKind(k: Kind) | OfBit(bit: FsMgrFlag) | Alone | Vbmeta | Unknown

  ghost predicate ReadAs(w: string, r: Reading) {
    match r
    case OfKind(k) => Fits(k, w) && Classify(w) == FlagOf(k, w[|Prefix(k)|..])
    case OfBit(bit) => Keyword(bit) == Some(w) && Classify(w) == Simple(bit)
    case Alone => FileEncryptionAlone(w) && Classify(w) == FileEncryptionWith("")
    case Vbmeta => NamesVbmeta(w) && Classify(w) == AvbOf(Arg(w))
    case Unknown => Classify(w) == Nothing && !NamesVbmeta(w)
  }

  lemma AvbIsKeyword()
    ensures Keyword(Avb) == Some("avb")
  {
  }

  /** Every word is read in one of these ways. */
  lemma ReadWord(w: string) returns (r: Reading)
    ensures ReadAs(w, r)
    ensures !r.OfKind? ==> forall k :: !Fits(k, w)
    ensures !r.OfBit? ==> forall bit :: Keyword(bit) != Some(w)
  {
    hide Prefix, FlagOf, Keyword, Classify, Arg;
    if k :| Fits(k, w) {
      WordOfKind(k, w);
      r := OfKind(k);
      forall bit: FsMgrFlag
        ensures Keyword(bit) != Some(w)
      {
        KindIsNoKeyword(k, bit, w);
      }
    } else if bit :| Keyword(bit) == Some(w) {
      PlainWord(bit, w);
      r := OfBit(bit);
    } else {
      OtherWord(w);
      AvbIsKeyword();
      assert !Fits(KAvbKeys, w) && !Fits(KAvbHashtreeDigest, w);
      if FileEncryptionAlone(w) {
        AloneHasNoArg();
        r := Alone;
      } else if BeginsAvb(w) {
        r := Vbmeta;
      } else {
        r := Unknown;
      }
    }
  }

  lemma KindIsNoKeyword(k: Kind, bit: FsMgrFlag, w: string)
    requires Fits(k, w)
    ensures Keyword(bit) != Some(w)
  {
    hide Prefix, FlagOf, Keyword, Classify, IsOf;
    if Keyword(bit) == Some(w) {
      PlainWord(bit, w);
      WordOfKind(k, w);
      FlagIsOf(k, k, w[|Prefix(k)|..]);
      OthersAreOfNoKind(k, bit, "");
    }
  }

  /** The kind of a word can be told from the flag it is taken for. */
  lemma KindByFlag(k: Kind, w: string)
    requires !Forced(k) && k != KFileEncryption
    ensures After(k, w).Some? <==> IsOf(k, Classify(w))
    ensures After(k, w).Some? ==> Classify(w) == FlagOf(k, After(k, w).value)
  {
    var r := ReadWord(w);
    hide Prefix, FlagOf, Keyword, Classify, Arg, IsOf, NamesVbmeta, Fits;
    match r {
      case OfKind(j) =>
        FlagIsOf(k, j, w[|Prefix(j)|..]);
        if Fits(k, w) {
          OtherKinds(j, w, k);
        }
      case OfBit(bit) => OthersAreOfNoKind(k, bit, "");
      case Alone => OthersAreOfNoKind(k, Avb, "");
      case Vbmeta => OthersAreOfNoKind(k, Avb, Arg(w));
      case Unknown => OthersAreOfNoKind(k, Avb, "");
    }
  }

  lemma ForcedByFlag(w: string)
    ensures Classify(w) == Unsupported <==> After(KForceEncrypt, w).Some? || After(KForceFdeOrFbe, w).Some?
  {
    var r := ReadWord(w);
    hide Prefix, FlagOf, Keyword, Classify, Arg, IsOf, NamesVbmeta, Fits;
    match r {
      case OfKind(j) =>
        UnsupportedIsForced(j, w[|Prefix(j)|..]);
        if Fits(KForceEncrypt, w) {
          OtherKinds(j, w, KForceEncrypt);
        }
        if Fits(KForceFdeOrFbe, w) {
          OtherKinds(j, w, KForceFdeOrFbe);
        }
      case _ =>
    }
  }

  lemma UnsupportedIsForced(k: Kind, arg: string)
    ensures FlagOf(k, arg) == Unsupported <==> Forced(k)
  {
  }

  lemma FileEncryptionByFlag(w: string)
    ensures Classify(w).FileEncryptionWith? <==> w == "fileencryption" || After(KFileEncryption, w).Some?
    ensures w == "fileencryption" ==> Classify(w) == FileEncryptionWith("")
    ensures After(KFileEncryption, w).Some? ==> Classify(w) == FileEncryptionWith(After(KFileEncryption, w).value)
  {
    var r := ReadWord(w);
    FileEncryptionWord(w);
    hide Prefix, FlagOf, Keyword, Classify, Arg, NamesVbmeta, Fits, FileEncryptionAlone;
    match r {
      case OfKind(j) =>
        NotAlone(j, w);
        FileEncryptionFlag(j, w[|Prefix(j)|..]);
        if Fits(KFileEncryption, w) {
          OtherKinds(j, w, KFileEncryption);
        }
      case OfBit(bit) => AloneIsNoKeyword(bit);
      case Alone =>
      case Vbmeta => AloneIsNoVbmeta();
      case Unknown =>
    }
    if w == "fileencryption" && !r.Alone? && !r.OfKind? && !r.OfBit? && !r.Vbmeta? {
      OtherWord(w);
    }
  }

  lemma FileEncryptionWord(w: string)
    ensures FileEncryptionAlone(w) <==> w == "fileencryption"
  {
  }

  lemma FileEncryptionFlag(k: Kind, arg: string)
    ensures FlagOf(k, arg).FileEncryptionWith? <==> k == KFileEncryption
    ensures FlagOf(KFileEncryption, arg) == FileEncryptionWith(arg)
  {
  }

  lemma AloneIsNoKeyword(bit: FsMgrFlag)
    ensures Keyword(bit) != Some("fileencryption")
  {
  }

  lemma AloneIsNotAvb()
    ensures !("avb" <= "fileencryption")
  {
    assert "fileencryption"[0] != "avb"[0];
  }

  lemma OtherFlags(k: Kind, arg: string)
    ensures !FlagOf(k, arg).Simple? && !FlagOf(k, arg).AvbOf?
  {
  }

  lemma SimpleByFlag(bit: FsMgrFlag, w: string)
    ensures Classify(w) == Simple(bit) <==> Keyword(bit) == Some(w)
  {
    var r := ReadWord(w);
    hide Prefix, FlagOf, Keyword, Classify, Arg, NamesVbmeta, Fits, FileEncryptionAlone;
    match r {
      case OfKind(j) => OtherFlags(j, w[|Prefix(j)|..]);
      case OfBit(b) =>
        if Keyword(bit) == Some(w) {
          PlainWord(bit, w);
        }
      case _ =>
    }
  }

  lemma KeywordIsNoVbmeta(bit: FsMgrFlag, w: string)
    requires Keyword(bit) == Some(w)
    ensures !NamesVbmeta(w)
  {
    if bit == Avb {
      AvbIsKeyword();
    } else {
      KeywordBegins(bit);
    }
  }

  lemma KeywordBegins(bit: FsMgrFlag)
    requires Keyword(bit).Some? && bit != Avb
    ensures Keyword(bit).value != "" && Keyword(bit).value[0] != 'a'
  {
  }

  lemma KindIsNoVbmeta(k: Kind, w: string)
    requires Fits(k, w)
    ensures !NamesVbmeta(w)
  {
    NotAlone(k, w);
    hide Fits, Prefix, FileEncryptionAlone;
  }

  lemma VbmetaByFlag(w: string)
    ensures Classify(w).AvbOf? <==> NamesVbmeta(w)
    ensures NamesVbmeta(w) ==> Classify(w) == AvbOf(Arg(w))
  {
    var r := ReadWord(w);
    hide Prefix, FlagOf, Keyword, Classify, Arg, Fits, NamesVbmeta;
    match r {
      case OfKind(j) =>
        OtherFlags(j, w[|Prefix(j)|..]);
        KindIsNoVbmeta(j, w);
      case OfBit(b) => KeywordIsNoVbmeta(b, w);
      case Alone => AloneIsNoVbmeta();
      case Vbmeta =>
      case Unknown =>
    }
  }

  lemma AloneIsNoVbmeta()
    ensures !NamesVbmeta("fileencryption")
  {
    AloneIsNotAvb();
  }
}

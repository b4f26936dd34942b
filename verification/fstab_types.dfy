/** The entries of an fstab, as fs_mgr holds them. */
module FstabTypes {

  /** The boolean members of `fs_mgr_flags`. */
  datatype FsMgrFlag =
    | Wait | Check | NonRemovable | RecoveryOnly | NoEmulatedSd | NoTrim | Formattable
    | SlotSelect | LateMount | NoFail | Quota | Avb | Logical | CheckpointBlk | CheckpointFs
    | FirstStageMount | SlotSelectOther | FsVerity | ExtMetaCsum | FsCompress
    | OverlayfsRemoveMissingLowerdir | Crypt | VoldManaged | FileEncryption | IsZoned

  /** The bits of `flags`, the MS_ constants of mount(2). */
  datatype MountBit =
    | NoAtime | NoExec | NoSuid | NoDev | NoDirAtime | ReadOnly | Synchronous | Remount | Bind | Rec
    | Unbindable | Private | Slave | Shared | LazyTime | NoSymFollow

  datatype Entry = Entry(
    blkDevice: string, logicalPartitionName: string, mountPoint: string, fsType: string,
    flags: set<MountBit>, fsOptions: string, lowerdir: string, fsMgrFlags: set<FsMgrFlag>,
    length: int, volume: string, partnum: int, swapPrio: int, maxCompStreams: int, zramSize: int,
    reservedSize: int, readaheadSizeKb: int, encryptionOptions: string, eraseBlkSize: int,
    logicalBlkSize: int, vbmetaPartition: string, avbKeys: string, avbHashtreeDigest: string,
    metadataKeyDir: string, metadataEncryptionOptions: string, sysfsPath: string,
    zramBackingdevSize: nat, userDevices: seq<string>, deviceAliased: seq<bool>)

  const BLANK: Entry := Entry(
    "", "", "", "", {}, "", "", {}, 0, "", -1, -1, 0, 0, 0, -1, "", 0, 0, "", "", "", "", "", "", 0, [], [])
}

/** VNOPGetattr: the fixed attribute answers for the root directory. */
module Attributes {
  import Directory

  // Mode bits from <sys/stat.h>.
  const S_IFMT: bv32 := 0xF000
  const S_IFDIR: bv32 := 0x4000
  const S_ISUID: bv32 := 0x800
  const S_ISGID: bv32 := 0x400
  const S_ISVTX: bv32 := 0x200
  const S_IRUSR: bv32 := 0x100
  const S_IWUSR: bv32 := 0x80
  const S_IXUSR: bv32 := 0x40
  const S_IRGRP: bv32 := 0x20
  const S_IWGRP: bv32 := 0x10
  const S_IXGRP: bv32 := 0x8
  const S_IROTH: bv32 := 0x4
  const S_IWOTH: bv32 := 0x2
  const S_IXOTH: bv32 := 0x1

  datatype Timespec = Timespec(sec: int, nsec: int)

  /** The attributes VNOPGetattr marks as returned (VATTR_RETURN). */
  datatype AttrName = VaRdev | VaNlink | VaDataSize | VaMode | VaCreateTime | VaFileId | VaFsid

  /** The parts of a vnode_attr that VNOPGetattr fills in.  The access,
      modify and change times are written but not marked as returned. */
  datatype VAttr = VAttr(
    rdev: int, nlink: nat, dataSize: nat, mode: bv32,
    createTime: Timespec, accessTime: Timespec, modifyTime: Timespec, changeTime: Timespec,
    fileId: nat, fsid: int,
    returned: set<AttrName>)

  /** VNOPGetattr for the root vnode of a volume created at createTime on
      the device numbered rdevNum (the mount's f_create_time and
      fBlockRDevNum).  The directory reports itself as a read-only,
      searchable directory with two links; its size and file ID agree with
      the records VNOPReadDir returns for it. */
  function VNOPGetattr(createTime: Timespec, rdevNum: int): (a: VAttr)
    ensures a.returned == {VaRdev, VaNlink, VaDataSize, VaMode, VaCreateTime, VaFileId, VaFsid}
    ensures a.mode & S_IFMT == S_IFDIR
    ensures a.mode & (S_IWUSR | S_IWGRP | S_IWOTH) == 0
    ensures a.mode & (S_ISUID | S_ISGID | S_ISVTX) == 0
    ensures a.mode & (S_IRUSR | S_IXUSR | S_IRGRP | S_IXGRP | S_IROTH | S_IXOTH) ==
            (S_IRUSR | S_IXUSR | S_IRGRP | S_IXGRP | S_IROTH | S_IXOTH)
    ensures a.rdev == 0 && a.nlink == 2
    ensures a.dataSize == |Directory.Listing()| * Directory.DirentSize
    ensures forall k :: 0 <= k < |Directory.Listing()| ==> a.fileId == Directory.Listing()[k].fileno
    ensures a.createTime == createTime && a.fsid == rdevNum
    ensures a.accessTime == a.modifyTime == a.changeTime == Timespec(0, 0)
  {
    var yearZero := Timespec(0, 0);
    VAttr(0, 2, 2 * Directory.DirentSize,
          S_IFDIR | S_IRUSR | S_IXUSR | S_IRGRP | S_IXGRP | S_IROTH | S_IXOTH,
          createTime, yearZero, yearZero, yearZero,
          2, rdevNum,
          {VaRdev, VaNlink, VaDataSize, VaMode, VaCreateTime, VaFileId, VaFsid})
  }

  /** A full enumeration from the start copies exactly va_data_size bytes. */
  lemma DataSizeMatchesFullEnumeration(createTime: Timespec, rdevNum: int)
    ensures var r := Directory.ReadDirSpec(0, 0, VNOPGetattr(createTime, rdevNum).dataSize);
      r.entries == Directory.Listing() && r.resid == 0 && r.eof
  {
  }
}

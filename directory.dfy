/** VNOPReadDir and uiomove_atomic: the directory cursor protocol of the
    root directory, whose only entries are "." and "..". */
module Directory {
  import opened KernelTypes

  /** sizeof(struct dirent) in the kernel: d_fileno (4 bytes), d_reclen (2),
      d_type (1), d_namlen (1) and d_name (256). */
  const DirentSize: nat := 264

  /** The cursor stride: entry index i is published as uio offset i * 7. */
  const Stride: nat := 7

  /** DT_DIR from <sys/dirent.h>. */
  const DT_DIR: int := 4

  // Bits of the readdir flags argument (<sys/vnode_if.h>).
  const VNODE_READDIR_EXTENDED: bv32 := 0x1
  const VNODE_READDIR_REQSEEKOFF: bv32 := 0x2

  /** A directory record as VNOPReadDir fills it in. */
  datatype Dirent = Dirent(fileno: nat, reclen: nat, dtype: int, namlen: nat, name: string)

  /** The record VNOPReadDir emits for a name: file number 2 (the root),
      type DT_DIR, the full record length, and the name's length. */
  function RootEntry(name: string): (d: Dirent)
    ensures d.fileno == 2 && d.dtype == DT_DIR && d.reclen == DirentSize
    ensures d.name == name && d.namlen == |name|
  {
    Dirent(2, DirentSize, DT_DIR, |name|, name)
  }

  /** The whole directory, in cursor order. */
  function Listing(): seq<Dirent>
  {
    [RootEntry("."), RootEntry("..")]
  }

  /** Division as C performs it on off_t: truncation toward zero, so q * b
      is the multiple of b nearest to a on the side of zero. */
  function CDiv(a: int, b: nat): (q: int)
    requires b > 0
    ensures a >= 0 ==> 0 <= q && q * b <= a < q * b + b
    ensures a < 0 ==> q <= 0 && q * b - b < a <= q * b
  {
    if a >= 0 then a / b else -((-a) / b)
  }

  /** The uio of a readdir call: the cursor (uio_offset), the room left in
      the caller's buffer (uio_resid), and the records already copied out
      into that buffer. */
  class Uio {
    var offset: int
    var resid: nat
    var copied: seq<Dirent>

    constructor (offset0: int, resid0: nat)
      ensures offset == offset0 && resid == resid0 && copied == []
    {
      offset := offset0;
      resid := resid0;
      copied := [];
    }
  }

  /** uiomove_atomic: copy the whole record or nothing.  When the record
      does not fit in what is left of the buffer the answer is ENOBUFS and
      the uio is untouched; otherwise uiomove copies the record, which
      lowers resid and raises the offset by the record length. */
  method UioMoveAtomic(item: Dirent, uio: Uio) returns (err: int)
    modifies uio
    ensures err == 0 || err == ENOBUFS
    ensures (err == ENOBUFS) == (DirentSize > old(uio.resid))
    ensures err == ENOBUFS ==>
      uio.offset == old(uio.offset) && uio.resid == old(uio.resid) && uio.copied == old(uio.copied)
    ensures err == 0 ==>
      uio.resid == old(uio.resid) - DirentSize && uio.offset == old(uio.offset) + DirentSize &&
      uio.copied == old(uio.copied) + [item]
  {
    if DirentSize > uio.resid {
      err := ENOBUFS;
    } else {
      uio.copied := uio.copied + [item];
      uio.resid := uio.resid - DirentSize;
      uio.offset := uio.offset + DirentSize;
      err := 0;
    }
  }

  /** The flags VNOPReadDir refuses: it only supports plain enumeration,
      not the extended records or seek offsets NFS export needs. */
  predicate Rejected(flags: bv32)
  {
    flags & VNODE_READDIR_EXTENDED != 0 || flags & VNODE_READDIR_REQSEEKOFF != 0
  }

  /** What one readdir call reports and leaves behind. */
  datatype ReadDirResult = ReadDirResult(err: int, eof: bool, entries: seq<Dirent>, offset: int, resid: nat)

  function Min(a: int, b: int): int
  {
    if a <= b then a else b
  }

  /** The number of listing entries a call starting at entry index i
      copies into a buffer with resid bytes free: as many of the remaining
      entries as fit whole. */
  function EmittedCount(i: int, resid: nat): (n: nat)
    ensures 0 <= i <= 2 ==> i + n <= 2
    ensures !(0 <= i <= 2) ==> n == 0
    ensures n * DirentSize <= resid
  {
    if 0 <= i <= 2 then Min(2 - i, resid / DirentSize) else 0
  }

  /** Reference definition of one readdir call, stated on the listing
      rather than step by step: refuse the unsupported flags; otherwise
      decode the cursor into an entry index, copy the longest run of the
      remaining entries that fits whole, and publish the index reached. */
  function ReadDirSpec(flags: bv32, offset: int, resid: nat): ReadDirResult
  {
    if Rejected(flags) then ReadDirResult(EINVAL, false, [], offset, resid)
    else
      var i := CDiv(offset, Stride);
      var n := EmittedCount(i, resid);
      ReadDirResult(0, i + n > 1,
                    if 0 <= i <= 2 then Listing()[i..i + n] else [],
                    (i + n) * Stride, resid - n * DirentSize)
  }

  /** VNOPReadDir.  Returns the errno, *eofflagPtr and *numdirentPtr; the
      uio carries the cursor in and out and receives the records. */
  method VNOPReadDir(uio: Uio, flags: bv32) returns (err: int, eofflag: bool, numdirent: nat)
    modifies uio
    ensures var r := ReadDirSpec(flags, old(uio.offset), old(uio.resid));
      err == r.err && eofflag == r.eof && numdirent == |r.entries| &&
      uio.offset == r.offset && uio.resid == r.resid && uio.copied == old(uio.copied) + r.entries
  {
    eofflag := false;
    numdirent := 0;
    if flags & VNODE_READDIR_EXTENDED != 0 || flags & VNODE_READDIR_REQSEEKOFF != 0 {
      err := EINVAL;
    } else {
      err := 0;
      var index := CDiv(uio.offset, Stride);
      if index == 0 {
        err := UioMoveAtomic(RootEntry("."), uio);
        if err == 0 {
          numdirent := numdirent + 1;
          index := index + 1;
        }
      }
      if err == 0 && index == 1 {
        err := UioMoveAtomic(RootEntry(".."), uio);
        if err == 0 {
          numdirent := numdirent + 1;
          index := index + 1;
        }
      }
      if err == ENOBUFS {
        err := 0;
      }
      uio.offset := index * Stride;
      eofflag := index > 1;
    }
  }

  /** Unsupported flags: EINVAL, no entries, eofflag FALSE, and the uio is
      left exactly as it came in. */
  lemma RejectedFlagsCopyNothing(flags: bv32, offset: int, resid: nat)
    requires Rejected(flags)
    ensures ReadDirSpec(flags, offset, resid) == ReadDirResult(EINVAL, false, [], offset, resid)
  {
  }

  /** Every supported call succeeds, copies only whole records, and copies a
      contiguous run of the listing starting at the entry the cursor names,
      stopping only at the end of the listing or when the next record no
      longer fits; numdirent counts exactly those records. */
  lemma NoPartialRecords(flags: bv32, offset: int, resid: nat)
    requires !Rejected(flags)
    ensures var r := ReadDirSpec(flags, offset, resid);
      r.err == 0 &&
      r.resid + |r.entries| * DirentSize == resid &&
      |r.entries| <= 2 &&
      (forall k :: 0 <= k < |r.entries| ==> r.entries[k].reclen == DirentSize) &&
      (|r.entries| > 0 ==>
         (0 <= CDiv(offset, Stride) &&
          r.entries == Listing()[CDiv(offset, Stride)..CDiv(offset, Stride) + |r.entries|])) &&
      (0 <= CDiv(offset, Stride) <= 2 ==>
         CDiv(offset, Stride) + |r.entries| == 2 || r.resid < DirentSize)
  {
  }

  /** The cursor published after a supported call is a multiple of the
      stride and decodes back to the entry index reached: the index the
      incoming cursor named plus the number of records copied. */
  lemma CursorRoundTrip(flags: bv32, offset: int, resid: nat)
    requires !Rejected(flags)
    ensures var r := ReadDirSpec(flags, offset, resid);
      r.offset % Stride == 0 &&
      CDiv(r.offset, Stride) == CDiv(offset, Stride) + |r.entries|
  {
    var i := CDiv(offset, Stride);
    var r := ReadDirSpec(flags, offset, resid);
    var m := i + |r.entries|;
    assert r.offset == m * Stride;
    if m >= 0 {
      assert CDiv(m * Stride, Stride) == m;
    } else {
      assert -(m * Stride) == (-m) * Stride;
      assert CDiv(m * Stride, Stride) == m;
    }
  }

  /** eofflag is TRUE exactly when the index reached is past "..": both
      entries lie behind the cursor. */
  lemma EofIffPastLastEntry(flags: bv32, offset: int, resid: nat)
    requires !Rejected(flags)
    ensures var r := ReadDirSpec(flags, offset, resid);
      r.eof <==> CDiv(offset, Stride) + |r.entries| > 1
  {
  }

  /** A buffer too small for one record: nothing is copied, no error is
      reported, and a well-formed cursor comes back unchanged. */
  lemma ShortBufferKeepsCursor(flags: bv32, k: nat, resid: nat)
    requires !Rejected(flags) && resid < DirentSize
    ensures var r := ReadDirSpec(flags, k * Stride, resid);
      r.err == 0 && r.entries == [] && r.offset == k * Stride && r.resid == resid
  {
    assert CDiv(k * Stride, Stride) == k;
  }

  /** From the start with room for both records: ".", then "..", numdirent
      2, cursor 14 and eofflag TRUE; a further call copies nothing and
      eofflag stays TRUE. */
  lemma WholeDirectoryInOneCall(resid: nat)
    requires resid >= 2 * DirentSize
    ensures var r := ReadDirSpec(0, 0, resid);
      r.err == 0 && r.entries == Listing() && r.offset == 14 && r.eof &&
      r.resid == resid - 2 * DirentSize
    ensures var r := ReadDirSpec(0, 14, resid);
      r.err == 0 && r.entries == [] && r.offset == 14 && r.eof
  {
  }

  /** A cursor that is not a multiple of the stride is not refused: C's
      truncating division rounds it toward zero, so 3 and -3 both read
      from entry 0 and 8 reads from entry 1. */
  lemma UnalignedCursorsTruncate(resid: nat)
    requires resid >= 2 * DirentSize
    ensures ReadDirSpec(0, 3, resid).entries == Listing()
    ensures ReadDirSpec(0, -3, resid).entries == Listing()
    ensures ReadDirSpec(0, 8, resid).entries == [RootEntry("..")]
    ensures ReadDirSpec(0, -7, resid) == ReadDirResult(0, false, [], -7, resid)
  {
  }

  /** What a caller sees over a series of readdir calls made with plain
      flags, each feeding back the cursor the previous call published:
      bufs[j] is the buffer size offered to call j. */
  datatype SessionResult = SessionResult(offset: int, entries: seq<Dirent>, eof: bool)

  function Session(offset: int, bufs: seq<nat>): SessionResult
    decreases |bufs|
  {
    if bufs == [] then SessionResult(offset, [], false)
    else
      var r := ReadDirSpec(0, offset, bufs[0]);
      var rest := Session(r.offset, bufs[1..]);
      SessionResult(rest.offset, r.entries + rest.entries, if |bufs| == 1 then r.eof else rest.eof)
  }

  /** However the buffers are sized, a session started at a well-formed
      cursor for entry k yields the listing from k onward without gaps or
      repeats, ends on a well-formed cursor for the entry reached, and its
      last call reports end-of-directory exactly when both entries have
      been passed. */
  lemma {:induction false} SessionYieldsListingInOrder(k: nat, bufs: seq<nat>)
    requires k <= 2
    ensures var s := Session(k * Stride, bufs);
      s.offset % Stride == 0 && k <= s.offset / Stride <= 2 &&
      s.entries == Listing()[k..s.offset / Stride] &&
      (bufs != [] ==> (s.eof <==> s.offset / Stride == 2))
    decreases |bufs|
  {
    if bufs != [] {
      var r := ReadDirSpec(0, k * Stride, bufs[0]);
      assert CDiv(k * Stride, Stride) == k;
      var m := k + |r.entries|;
      assert r.offset == m * Stride && m <= 2;
      assert r.entries == Listing()[k..m];
      SessionYieldsListingInOrder(m, bufs[1..]);
      var rest := Session(m * Stride, bufs[1..]);
      assert Listing()[k..m] + Listing()[m..rest.offset / Stride] == Listing()[k..rest.offset / Stride];
      if |bufs| == 1 {
        assert rest.offset == m * Stride;
      }
    }
  }

  /** With room for at least one record per call, a session from the start
      has the whole listing after two calls, and a third call copies nothing
      and reports end-of-directory. */
  lemma {:induction false} OneRecordPerCallCompletes(k: nat, bufs: seq<nat>)
    requires k <= 2
    requires |bufs| >= 2 - k
    requires forall j :: 0 <= j < |bufs| ==> bufs[j] >= DirentSize
    ensures var s := Session(k * Stride, bufs);
      s.entries == Listing()[k..] && s.offset == 2 * Stride && (bufs != [] ==> s.eof)
    decreases |bufs|
  {
    SessionYieldsListingInOrder(k, bufs);
    if bufs != [] {
      var r := ReadDirSpec(0, k * Stride, bufs[0]);
      assert CDiv(k * Stride, Stride) == k;
      var m := k + |r.entries|;
      assert r.offset == m * Stride;
      assert bufs[0] / DirentSize >= 1;
      assert |r.entries| == EmittedCount(k, bufs[0]);
      assert k < 2 ==> m > k;
      OneRecordPerCallCompletes(m, bufs[1..]);
    }
  }
}

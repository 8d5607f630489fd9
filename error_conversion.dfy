/** The two error-style conversions of EmptyFS.c: from a Mach kern_return_t
    to a BSD errno_t, and back. */
module ErrorConversion {
  import opened KernelTypes

  /** ErrnoFromKernReturn: success stays success, every failure collapses to
      EINVAL. */
  function ErrnoFromKernReturn(kernErr: int): (err: int)
    ensures kernErr == KERN_SUCCESS ==> err == 0
    ensures kernErr != KERN_SUCCESS ==> err == EINVAL
  {
    if kernErr == KERN_SUCCESS then 0 else EINVAL
  }

  /** KernReturnFromErrno as the source writes it: the conversion is
      computed into a local and then discarded, and the incoming errno is
      returned unchanged.  Only the success/failure distinction survives,
      and that only because KERN_SUCCESS and errno 0 are both zero. */
  function KernReturnFromErrno(err: int): (kernErr: int)
    ensures (kernErr == KERN_SUCCESS) <==> (err == 0)
  {
    var computed := if err == 0 then KERN_SUCCESS else KERN_FAILURE;
    err
  }

  /** The conversion the comment on KernReturnFromErrno describes: success
      maps to KERN_SUCCESS, every errno to KERN_FAILURE. */
  function KernReturnFromErrnoIntended(err: int): (kernErr: int)
    ensures err == 0 ==> kernErr == KERN_SUCCESS
    ensures err != 0 ==> kernErr == KERN_FAILURE
  {
    if err == 0 then KERN_SUCCESS else KERN_FAILURE
  }

  /** The as-written conversion leaks errno values into the kern_return_t
      space: vfs_fsremove failing with EBUSY (16) is reported to the kernel
      as kern_return_t 16, not KERN_FAILURE. */
  lemma KernReturnFromErrnoLeaksErrno()
    ensures KernReturnFromErrno(16) == 16 != KERN_FAILURE
    ensures KernReturnFromErrnoIntended(16) == KERN_FAILURE
  {
  }

  /** Both versions agree on success versus failure, so a round trip through
      the two conversions preserves exactly that. */
  lemma ConversionsAgreeOnSuccess(err: int)
    ensures (KernReturnFromErrno(err) == KERN_SUCCESS) == (KernReturnFromErrnoIntended(err) == KERN_SUCCESS)
    ensures (ErrnoFromKernReturn(KernReturnFromErrnoIntended(err)) == 0) == (err == 0)
    ensures err != 0 ==> ErrnoFromKernReturn(KernReturnFromErrnoIntended(err)) == EINVAL
  {
  }

  /** Converting a kern_return_t to an errno and back yields KERN_SUCCESS or
      KERN_FAILURE, matching success of the original. */
  lemma KernRoundTrip(kernErr: int)
    ensures KernReturnFromErrnoIntended(ErrnoFromKernReturn(kernErr)) ==
            (if kernErr == KERN_SUCCESS then KERN_SUCCESS else KERN_FAILURE)
  {
  }
}

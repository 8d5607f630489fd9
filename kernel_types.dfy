/** Kernel-side vocabulary shared by the EmptyFS model: optional values,
    vnode handles as the plug-in sees them, and the numeric error codes of
    the macOS kernel (errno_t and kern_return_t). */
module KernelTypes {

  datatype Option<+T> = None | Some(value: T)

  /** A vnode as the plug-in can observe it: an identity and the vnode ID
      (vid), the generation stamp the kernel bumps whenever it recycles the
      vnode.  Two handles with the same identity but different vids name
      different incarnations. */
  datatype VNode = VNode(id: nat, vid: nat)

  // errno_t values from <sys/errno.h> on macOS.
  const ENOENT: int := 2
  const ENOMEM: int := 12
  const EINVAL: int := 22
  const EAGAIN: int := 35
  const ENOBUFS: int := 55

  // kern_return_t values from <mach/kern_return.h>.
  const KERN_SUCCESS: int := 0
  const KERN_FAILURE: int := 5
}

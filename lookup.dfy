/** VNOPLookup: name resolution inside the one directory of the volume. */
module Lookup {
  import opened KernelTypes

  /** The parts of the kernel's componentname that the lookup consults:
      whether the ISDOTDOT flag is set in cn_flags, and the name itself
      (cn_nameptr for cn_namelen bytes). */
  datatype ComponentName = ComponentName(isDotDot: bool, name: string)

  /** What VNOPLookup hands back: the errno and what it stores into *vpp. */
  datatype LookupResult = LookupResult(err: int, vn: Option<VNode>)

  /** The names that resolve: anything the kernel flags ISDOTDOT, and the
      one-character name ".".  Both mean the directory itself, because the
      root is its own parent. */
  predicate NamesSelf(cn: ComponentName)
  {
    cn.isDotDot || cn.name == "."
  }

  /** VNOPLookup on directory dvp.  getErr is the answer vnode_get(dvp)
      gives when the name resolves (0, or the errno with which the kernel
      refused an I/O reference); it is not consulted otherwise. */
  function VNOPLookup(dvp: VNode, cn: ComponentName, getErr: int): (r: LookupResult)
    ensures (r.err == 0) == r.vn.Some?
    ensures r.vn.Some? ==> r.vn.value == dvp
    ensures NamesSelf(cn) ==> r.err == getErr
    ensures !NamesSelf(cn) ==> r.err == ENOENT && r.vn == None
  {
    if cn.isDotDot then
      if getErr == 0 then LookupResult(0, Some(dvp)) else LookupResult(getErr, None)
    else if |cn.name| == 1 && cn.name[0] == '.' then
      if getErr == 0 then LookupResult(0, Some(dvp)) else LookupResult(getErr, None)
    else
      LookupResult(ENOENT, None)
  }

  /** Lookup closure: from the root, "." and ".." (which the kernel marks
      ISDOTDOT) both give back the root itself once the I/O reference is
      granted, and any other name is not found. */
  lemma LookupClosure(root: VNode, name: string)
    ensures VNOPLookup(root, ComponentName(false, "."), 0) == LookupResult(0, Some(root))
    ensures VNOPLookup(root, ComponentName(true, ".."), 0) == LookupResult(0, Some(root))
    ensures name != "." ==> VNOPLookup(root, ComponentName(false, name), 0) == LookupResult(ENOENT, None)
  {
  }
}

/** The root vnode of an EmptyFS volume: lazily created on demand, recorded
    in the mount without a reference of its own, revalidated by vnode ID on
    every use, and forgotten when the kernel reclaims it.

    Each region that EmptyFSMountGetRootVNodeCreatingIfNecessary and
    EmptyFSMountDetachRootVNode run while holding fRootMutex is one atomic
    step here, first as a function on the three protected fields and then
    as a method of the Mount class that is specified by that function. */
module RootVNode {
  import opened KernelTypes

  /** fRootAttaching, fRootWaiting and fRootVNode, the fields fRootMutex
      protects. */
  datatype RootState = RootState(attaching: bool, waiting: bool, root: Option<VNode>)

  /** The two facts the source relies on: while a root vnode is being
      attached none is recorded, and nobody waits unless an attach is in
      flight. */
  predicate FlagsInv(s: RootState)
  {
    (s.attaching ==> s.root.None?) && (s.waiting ==> s.attaching)
  }

  /** The state of a freshly mounted volume (the mount structure is
      zero-filled). */
  const Unmounted: RootState := RootState(false, false, None)

  /** What the locked head of the retry loop decides to do. */
  datatype Action = Sleep | Create | Revalidate(candidate: VNode)

  datatype Begun = Begun(action: Action, next: RootState)

  /** The locked head of the retry loop: wait for an attach in flight
      (announcing the waiter), claim the attach when no root vnode is
      recorded, or pick the recorded root vnode and its vid for
      revalidation outside the lock. */
  function BeginAttempt(s: RootState): (b: Begun)
    requires FlagsInv(s)
    ensures FlagsInv(b.next)
    ensures b.action.Sleep? <==> s.attaching
    ensures b.action.Create? <==> !s.attaching && s.root.None?
    ensures b.action.Revalidate? <==> s.root.Some?
    ensures b.action.Revalidate? ==> b.action.candidate == s.root.value && b.next == s
    ensures b.action.Sleep? ==> b.next == RootState(true, true, None)
    ensures b.action.Create? ==> b.next == RootState(true, s.waiting, None) && !s.waiting
    ensures b.next.root == s.root
  {
    if s.attaching then
      Begun(Sleep, s.(waiting := true))
    else if s.root.None? then
      Begun(Create, s.(attaching := true))
    else
      Begun(Revalidate(s.root.value), s)
  }

  /** The outcome of the locked region that follows vnode_create: the error
      and vnode the iteration ends with, whether waiters were woken, and
      the new protected state. */
  datatype Finished = Finished(err: int, result: Option<VNode>, woke: bool, next: RootState)

  /** The locked region after vnode_create as the source writes it.  On
      success the new vnode is installed, the attach is over and sleepers
      are woken.  On failure nothing at all happens: fRootAttaching stays
      set and nobody is woken. */
  function FinishCreateAsWritten(s: RootState, createErr: int, newVN: Option<VNode>): (f: Finished)
    requires FlagsInv(s) && s.attaching
    requires (createErr == 0) == newVN.Some?
    ensures (f.err == 0) == f.result.Some?
    ensures createErr == 0 ==>
      f.err == 0 && f.result == newVN && f.next == RootState(false, false, newVN) && f.woke == s.waiting
    ensures createErr != 0 ==> f.err == createErr && f.next == s && !f.woke
  {
    if createErr == 0 then
      Finished(0, newVN, s.waiting, RootState(false, false, newVN))
    else
      Finished(createErr, None, false, s)
  }

  /** The locked region after vnode_create with the failure path it evidently
      needs: whatever vnode_create answers, the attach is over and every
      sleeper is woken to look again; only a successful create records a
      root vnode. */
  function FinishCreate(s: RootState, createErr: int, newVN: Option<VNode>): (f: Finished)
    requires FlagsInv(s) && s.attaching
    requires (createErr == 0) == newVN.Some?
    ensures FlagsInv(f.next) && !f.next.attaching && !f.next.waiting
    ensures f.woke == s.waiting
    ensures f.err == createErr && (f.err == 0) == f.result.Some?
    ensures f.result == newVN && f.next.root == newVN
  {
    Finished(createErr, newVN, s.waiting, RootState(false, false, newVN))
  }

  /** Where the two versions part: they agree whenever vnode_create
      succeeds; after a failure only the corrected one ends the attach. */
  lemma FinishCreateVersionsAgreeOnSuccess(s: RootState, createErr: int, newVN: Option<VNode>)
    requires FlagsInv(s) && s.attaching
    requires (createErr == 0) == newVN.Some?
    ensures createErr == 0 ==> FinishCreateAsWritten(s, createErr, newVN) == FinishCreate(s, createErr, newVN)
    ensures createErr != 0 ==> FinishCreateAsWritten(s, createErr, newVN).next.attaching
    ensures createErr != 0 ==> !FinishCreate(s, createErr, newVN).next.attaching
  {
  }

  /** With the corrected failure path the next attempt claims the attach
      again, so callers retry creation instead of sleeping forever. */
  lemma CorrectedFailedCreateAllowsRetry(s: RootState, createErr: int)
    requires FlagsInv(s) && s.attaching && createErr != 0
    ensures BeginAttempt(FinishCreate(s, createErr, None).next).action == Create
  {
  }

  /** The locked region after vnode_getwithvid: success hands the candidate
      back with the I/O reference vnode_getwithvid took; failure (the vnode
      was recycled after the lock was dropped) becomes EAGAIN, a retry. */
  function FinishRevalidate(candidate: VNode, getErr: int): (r: (int, Option<VNode>))
    ensures (r.0 == 0) == r.1.Some?
    ensures getErr == 0 ==> r.1 == Some(candidate)
    ensures getErr != 0 ==> r.0 == EAGAIN
  {
    if getErr == 0 then (0, Some(candidate)) else (EAGAIN, None)
  }

  /** EmptyFSMountDetachRootVNode on the protected state: nothing to do if
      no root vnode is recorded (which is always so while an attach is in
      flight), otherwise forget it; the flags are never touched.  Detaching
      a vnode other than the recorded one is outside the contract. */
  function Detached(s: RootState, vn: VNode): (t: RootState)
    requires FlagsInv(s)
    requires s.root.None? || s.root == Some(vn)
    ensures FlagsInv(t)
    ensures t.root.None? && t.attaching == s.attaching && t.waiting == s.waiting
    ensures s.root.None? ==> t == s
  {
    if s.root.None? then s else s.(root := None)
  }

  /** A second detach of the same vnode is a no-op, and detaching while an
      attach is in flight changes nothing at all. */
  lemma DetachIdempotent(s: RootState, vn: VNode)
    requires FlagsInv(s)
    requires s.root.None? || s.root == Some(vn)
    ensures Detached(Detached(s, vn), vn) == Detached(s, vn)
    ensures s.attaching ==> Detached(s, vn) == s
  {
  }

  /** The kernel's vnode layer as far as the plug-in can observe it. */
  class VNodeCache {
    /** The vnodes whose vid is still current: vnode_getwithvid and
        vnode_get succeed on exactly these. */
    var live: set<VNode>
    /** The vnodes on which a file system holds a soft reference
        (vnode_addfsref). */
    var fsref: set<VNode>
    /** Identities never handed out yet. */
    var nextId: nat

    ghost predicate Valid()
      reads this
    {
      forall v :: v in live ==> v.id < nextId
    }

    constructor ()
      ensures Valid() && live == {} && fsref == {} && nextId == 0
    {
      live := {};
      fsref := {};
      nextId := 0;
    }

    /** vnode_create.  Whether it succeeds is the kernel's decision, given
        here as outcome (0, or the errno it fails with); a success yields a
        vnode that did not exist before. */
    method Create(outcome: int) returns (err: int, vn: Option<VNode>)
      requires Valid()
      modifies this
      ensures Valid()
      ensures err == outcome && (err == 0) == vn.Some?
      ensures err == 0 ==>
        vn.value.id == old(nextId) && vn.value !in old(live) &&
        live == old(live) + {vn.value} && nextId == old(nextId) + 1
      ensures err != 0 ==> live == old(live) && nextId == old(nextId)
      ensures fsref == old(fsref)
    {
      err := outcome;
      if err == 0 {
        var v := VNode(nextId, 0);
        live := live + {v};
        nextId := nextId + 1;
        vn := Some(v);
      } else {
        vn := None;
      }
    }

    /** vnode_getwithvid: succeeds exactly when the handle's vid is still
        current. */
    method GetWithVid(vn: VNode) returns (err: int)
      ensures (err == 0) == (vn in live)
    {
      err := if vn in live then 0 else ENOENT;
    }

    /** The kernel recycles a vnode: its vid changes, so the handle the
        plug-in recorded goes stale.  (The kernel then calls VNOPReclaim.) */
    method Recycle(vn: VNode)
      requires Valid()
      modifies this
      ensures Valid()
      ensures live == old(live) - {vn} && fsref == old(fsref) && nextId == old(nextId)
    {
      live := live - {vn};
    }

    /** vnode_addfsref and vnode_removefsref. */
    method AddFsRef(vn: VNode)
      modifies this
      ensures fsref == old(fsref) + {vn} && live == old(live) && nextId == old(nextId)
    {
      fsref := fsref + {vn};
    }

    method RemoveFsRef(vn: VNode)
      modifies this
      ensures fsref == old(fsref) - {vn} && live == old(live) && nextId == old(nextId)
    {
      fsref := fsref - {vn};
    }
  }

  /** The root-vnode part of an EmptyFSMount. */
  class Mount {
    var attaching: bool
    var waiting: bool
    var root: Option<VNode>
    /** How many times wakeup(&fRootVNode) has been called. */
    ghost var wakeups: nat

    function State(): RootState
      reads this
    {
      RootState(attaching, waiting, root)
    }

    ghost predicate Valid()
      reads this
    {
      FlagsInv(State())
    }

    /** The recorded root vnode, if any, carries our soft reference and an
        identity the cache has handed out. */
    ghost predicate Coherent(cache: VNodeCache)
      reads this, cache
    {
      root.Some? ==> root.value in cache.fsref && root.value.id < cache.nextId
    }

    /** VFSOPMount zero-fills the mount: no attach, no waiter, no root. */
    constructor ()
      ensures Valid() && State() == Unmounted && wakeups == 0
    {
      attaching, waiting, root := false, false, None;
      wakeups := 0;
    }

    /** The locked head of one iteration of the retry loop. */
    method Begin() returns (act: Action)
      requires Valid()
      modifies this
      ensures Valid()
      ensures Begun(act, State()) == BeginAttempt(old(State())) && wakeups == old(wakeups)
    {
      if attaching {
        waiting := true;
        act := Sleep;
      } else if root.None? {
        attaching := true;
        act := Create;
      } else {
        act := Revalidate(root.value);
      }
    }

    /** The locked region after vnode_create, with the corrected failure
        path: install the new vnode and take a soft reference on it, end
        the attach, and wake any sleepers. */
    method FinishCreateLocked(createErr: int, newVN: Option<VNode>, cache: VNodeCache)
      returns (err: int, result: Option<VNode>)
      requires Valid() && attaching
      requires (createErr == 0) == newVN.Some?
      modifies this, cache
      ensures Valid()
      ensures var f := FinishCreate(old(State()), createErr, newVN);
        State() == f.next && err == f.err && result == f.result &&
        wakeups == old(wakeups) + (if f.woke then 1 else 0)
      ensures cache.fsref == (if createErr == 0 then old(cache.fsref) + {newVN.value} else old(cache.fsref))
      ensures cache.live == old(cache.live) && cache.nextId == old(cache.nextId)
    {
      if createErr == 0 {
        root := newVN;
        cache.AddFsRef(newVN.value);
        attaching := false;
        if waiting {
          wakeups := wakeups + 1;
          waiting := false;
        }
        result := root;
        err := 0;
      } else {
        attaching := false;
        if waiting {
          wakeups := wakeups + 1;
          waiting := false;
        }
        result := None;
        err := createErr;
      }
    }

    /** EmptyFSMountGetRootVNodeCreatingIfNecessary, run by one caller with
        nobody else touching the volume.  createOutcome is what vnode_create
        answers each time it is called; fuel bounds the number of
        iterations, after which the caller is still waiting (EAGAIN).

        Whatever happens, (err == 0) == (the result is non-null), and a
        returned vnode is the recorded root with a current vid.  A volume
        without a root vnode and without an attach in flight gets one from
        the first iteration (or reports vnode_create's failure); one whose
        recorded root vnode is still live gets that same vnode back
        without a new one being created. */
    method GetRootVNode(cache: VNodeCache, createOutcome: int, fuel: nat) returns (err: int, vn: Option<VNode>)
      requires Valid() && cache.Valid() && Coherent(cache)
      modifies this, cache
      ensures Valid() && cache.Valid() && Coherent(cache)
      ensures (err == 0) == vn.Some?
      ensures err == 0 ==> root == vn && vn.value in cache.live
      ensures err != 0 && err != EAGAIN ==> err == createOutcome && root.None? && !attaching
      ensures fuel > 0 && !old(attaching) && old(root).None? && createOutcome == 0 ==>
        err == 0 && vn.value.id == old(cache.nextId) && vn.value !in old(cache.live) &&
          cache.nextId == old(cache.nextId) + 1
      ensures fuel > 0 && !old(attaching) && old(root).None? && createOutcome != 0 && createOutcome != EAGAIN ==>
        err == createOutcome && vn.None?
      ensures fuel > 0 && old(root).Some? && old(root).value in old(cache.live) ==>
        err == 0 && vn == old(root) && cache.nextId == old(cache.nextId)
    {
      err, vn := EAGAIN, None;
      var iterations := 0;
      while err == EAGAIN && iterations < fuel
        invariant Valid() && cache.Valid() && Coherent(cache)
        invariant iterations <= fuel
        invariant (err == 0) == vn.Some?
        invariant err == 0 ==> root == vn && vn.value in cache.live
        invariant err != 0 && err != EAGAIN ==> err == createOutcome && root.None? && !attaching
        invariant iterations == 0 ==>
          err == EAGAIN && State() == old(State()) && cache.live == old(cache.live) && cache.nextId == old(cache.nextId)
        invariant iterations > 0 && !old(attaching) && old(root).None? && createOutcome == 0 ==>
          err == 0 && vn.value.id == old(cache.nextId) && vn.value !in old(cache.live) &&
          cache.nextId == old(cache.nextId) + 1
        invariant iterations > 0 && !old(attaching) && old(root).None? && createOutcome != 0 && createOutcome != EAGAIN ==>
          err == createOutcome && vn.None?
        invariant iterations > 0 && old(root).Some? && old(root).value in old(cache.live) ==>
          err == 0 && vn == old(root) && cache.nextId == old(cache.nextId)
        decreases fuel - iterations
      {
        var act := Begin();
        match act {
          case Sleep =>
            // msleep: nobody else runs in this model, so the caller wakes
            // to the same state and loops.
            err := EAGAIN;
          case Create =>
            var createErr, newVN := cache.Create(createOutcome);
            err, vn := FinishCreateLocked(createErr, newVN, cache);
          case Revalidate(candidate) =>
            var getErr := cache.GetWithVid(candidate);
            var r := FinishRevalidate(candidate, getErr);
            err, vn := r.0, r.1;
        }
        iterations := iterations + 1;
      }
    }

    /** EmptyFSMountDetachRootVNode, called from VNOPReclaim: drop the soft
        reference on the recorded root vnode and forget it; a late or
        duplicate call finds nothing recorded and does nothing. */
    method DetachRootVNode(vn: VNode, cache: VNodeCache)
      requires Valid()
      requires root.None? || root == Some(vn)
      modifies this, cache
      ensures Valid()
      ensures State() == Detached(old(State()), vn) && wakeups == old(wakeups)
      ensures cache.fsref == (if old(root).Some? then old(cache.fsref) - {vn} else old(cache.fsref))
      ensures cache.live == old(cache.live) && cache.nextId == old(cache.nextId)
    {
      if root.None? {
      } else {
        cache.RemoveFsRef(root.value);
        root := None;
      }
    }
  }

  /** A caller's view of the protocol on a fresh volume: the first GetRoot
      creates the root vnode, a second one gets the same vnode back, and
      after the kernel recycles and reclaims it a third creates a new one;
      a repeated reclaim is harmless. */
  method RootLifecycle()
  {
    var cache := new VNodeCache();
    var mount := new Mount();
    var err1, vn1 := mount.GetRootVNode(cache, 0, 1);
    assert err1 == 0 && vn1.Some? && vn1.value.id == 0;
    var err2, vn2 := mount.GetRootVNode(cache, 0, 1);
    assert err2 == 0 && vn2 == vn1;
    cache.Recycle(vn1.value);
    mount.DetachRootVNode(vn1.value, cache);
    mount.DetachRootVNode(vn1.value, cache);
    assert mount.State() == Unmounted;
    var err3, vn3 := mount.GetRootVNode(cache, 0, 1);
    assert err3 == 0 && vn3.Some? && vn3.value.id == 1 && vn3 != vn1;
  }
}

/** Many callers of EmptyFSMountGetRootVNodeCreatingIfNecessary at once,
    interleaved with the kernel recycling and reclaiming the root vnode.
    Each caller is a program counter inside the retry loop; every event is
    one of the atomic steps of RootVNode (a locked region, or the unlocked
    call into the vnode layer that follows it).  Sleeping is not blocking:
    a sleeper may wake at any moment (a wakeup or a spurious one) and look
    again, which is all the safety argument relies on. */
module Interleaving {
  import opened KernelTypes
  import opened RootVNode

  /** Where one caller stands: about to take the loop head, asleep in
      msleep, inside vnode_create with fRootAttaching claimed, inside
      vnode_getwithvid on a candidate, or returned. */
  datatype PC = Top | Asleep | Creating | Revalidating(candidate: VNode) | Returned(err: int, vn: Option<VNode>)

  /** The protected fields, every caller's position, and the vnode layer
      (the vnodes whose vid is current, and the next unused identity). */
  datatype Sys = Sys(rs: RootState, pcs: map<nat, PC>, live: set<VNode>, nextId: nat)

  datatype Event =
    | Call(t: nat)                        // thread t enters and takes the lock
    | Begin(t: nat)                       // t runs the locked loop head
    | Wake(t: nat)                        // t returns from msleep holding the lock
    | CreateDone(t: nat, createErr: int)  // vnode_create answers t; t relocks and finishes
    | RevalidateDone(t: nat)              // vnode_getwithvid answers t; t relocks
    | Recycle(v: VNode)                   // the kernel gives v a new vid
    | Reclaim(v: VNode)                   // VNOPReclaim(v) runs EmptyFSMountDetachRootVNode

  const Init: Sys := Sys(Unmounted, map[], {}, 0)

  /** Where a caller goes when an iteration ends with err: round the loop
      again on EAGAIN, out of it otherwise. */
  function AfterIteration(err: int, vn: Option<VNode>): PC
  {
    if err == EAGAIN then Top else Returned(err, vn)
  }

  /** One event.  An event whose thread is not where the event needs it, or
      a reclaim of a vnode other than the recorded root (which the source
      treats as a broken kernel contract), changes nothing.  asWritten
      selects the source's failure path after vnode_create instead of the
      corrected one. */
  function Step(sys: Sys, e: Event, asWritten: bool): (next: Sys)
    requires FlagsInv(sys.rs)
    ensures FlagsInv(next.rs)
  {
    match e
    case Call(t) =>
      if t !in sys.pcs || sys.pcs[t].Returned? then sys.(pcs := sys.pcs[t := Top]) else sys
    case Begin(t) =>
      if t in sys.pcs && sys.pcs[t] == Top then
        var b := BeginAttempt(sys.rs);
        var pc := match b.action
                  case Sleep => Asleep
                  case Create => Creating
                  case Revalidate(c) => Revalidating(c);
        sys.(rs := b.next, pcs := sys.pcs[t := pc])
      else sys
    case Wake(t) =>
      if t in sys.pcs && sys.pcs[t] == Asleep then sys.(pcs := sys.pcs[t := Top]) else sys
    case CreateDone(t, createErr) =>
      if t in sys.pcs && sys.pcs[t] == Creating && sys.rs.attaching then
        var newVN := if createErr == 0 then Some(VNode(sys.nextId, 0)) else None;
        var f := if asWritten then FinishCreateAsWritten(sys.rs, createErr, newVN)
                 else FinishCreate(sys.rs, createErr, newVN);
        Sys(f.next, sys.pcs[t := AfterIteration(f.err, f.result)],
            if createErr == 0 then sys.live + {newVN.value} else sys.live,
            if createErr == 0 then sys.nextId + 1 else sys.nextId)
      else sys
    case RevalidateDone(t) =>
      if t in sys.pcs && sys.pcs[t].Revalidating? then
        var c := sys.pcs[t].candidate;
        var r := FinishRevalidate(c, if c in sys.live then 0 else ENOENT);
        sys.(pcs := sys.pcs[t := AfterIteration(r.0, r.1)])
      else sys
    case Recycle(v) =>
      sys.(live := sys.live - {v})
    case Reclaim(v) =>
      if sys.rs.root.None? || sys.rs.root == Some(v) then sys.(rs := Detached(sys.rs, v)) else sys
  }

  function Run(sys: Sys, events: seq<Event>, asWritten: bool): (final: Sys)
    requires FlagsInv(sys.rs)
    ensures FlagsInv(final.rs)
    decreases |events|
  {
    if events == [] then sys else Run(Step(sys, events[0], asWritten), events[1..], asWritten)
  }

  predicate IsCreator(sys: Sys, t: nat)
  {
    t in sys.pcs && sys.pcs[t] == Creating
  }

  /** The safety half of the protocol, which the source keeps on either
      failure path after vnode_create: nobody is inside vnode_create unless
      fRootAttaching is set, never two callers at once, and every caller
      that has returned did so with (err == 0) == (vnode != NULL) and never
      with EAGAIN. */
  ghost predicate Safe(sys: Sys)
  {
    FlagsInv(sys.rs) &&
    (forall t :: IsCreator(sys, t) ==> sys.rs.attaching) &&
    (forall t1, t2 :: IsCreator(sys, t1) && IsCreator(sys, t2) ==> t1 == t2) &&
    (forall t :: t in sys.pcs && sys.pcs[t].Returned? ==>
       (sys.pcs[t].err == 0) == sys.pcs[t].vn.Some? && sys.pcs[t].err != EAGAIN)
  }

  /** The whole protocol invariant, which only the corrected failure path
      keeps: in addition, fRootAttaching is set only while somebody is
      inside vnode_create to clear it. */
  ghost predicate Inv(sys: Sys)
  {
    Safe(sys) && (sys.rs.attaching ==> exists t :: IsCreator(sys, t))
  }

  /** Every step, on either failure path, keeps the safety half. */
  lemma StepKeepsSafe(sys: Sys, e: Event, asWritten: bool)
    requires Safe(sys)
    ensures Safe(Step(sys, e, asWritten))
  {
    var next := Step(sys, e, asWritten);
    match e {
      case Begin(t) =>
        if t in sys.pcs && sys.pcs[t] == Top && !sys.rs.attaching && sys.rs.root.None? {
          assert IsCreator(next, t);
          forall u | IsCreator(next, u) ensures u == t {
            if u != t {
              assert IsCreator(sys, u);
            }
          }
        } else {
          SameCreators(sys, next, e, asWritten);
        }
      case CreateDone(t, createErr) =>
        if t in sys.pcs && sys.pcs[t] == Creating && sys.rs.attaching {
          forall u | IsCreator(next, u) ensures false {
            assert IsCreator(sys, u) && IsCreator(sys, t);
          }
        } else {
          assert next == sys;
        }
      case _ =>
        SameCreators(sys, next, e, asWritten);
    }
  }

  /** With the corrected failure path every step keeps the whole invariant. */
  lemma StepPreservesInv(sys: Sys, e: Event)
    requires Inv(sys)
    ensures Inv(Step(sys, e, false))
  {
    StepKeepsSafe(sys, e, false);
    var next := Step(sys, e, false);
    match e {
      case Begin(t) =>
        if t in sys.pcs && sys.pcs[t] == Top && !sys.rs.attaching && sys.rs.root.None? {
          assert IsCreator(next, t);
        } else {
          SameCreators(sys, next, e, false);
        }
      case CreateDone(t, createErr) =>
        if !(t in sys.pcs && sys.pcs[t] == Creating && sys.rs.attaching) {
          assert next == sys;
        }
      case _ =>
        SameCreators(sys, next, e, false);
    }
  }

  /** Events other than a caller's loop head claiming the attach, or its
      create finishing, leave the set of callers inside vnode_create as it
      was. */
  lemma SameCreators(sys: Sys, next: Sys, e: Event, asWritten: bool)
    requires FlagsInv(sys.rs) && next == Step(sys, e, asWritten)
    requires e.Begin? ==> !(e.t in sys.pcs && sys.pcs[e.t] == Top && !sys.rs.attaching && sys.rs.root.None?)
    requires !e.CreateDone?
    ensures next.rs.attaching == sys.rs.attaching
    ensures forall u :: IsCreator(next, u) <==> IsCreator(sys, u)
  {
  }

  /** Every schedule, on either failure path, keeps the safety half. */
  lemma {:induction false} RunKeepsSafe(sys: Sys, events: seq<Event>, asWritten: bool)
    requires Safe(sys)
    ensures Safe(Run(sys, events, asWritten))
    decreases |events|
  {
    if events != [] {
      StepKeepsSafe(sys, events[0], asWritten);
      RunKeepsSafe(Step(sys, events[0], asWritten), events[1..], asWritten);
    }
  }

  /** Every schedule with the corrected failure path keeps the whole
      invariant. */
  lemma {:induction false} RunPreservesInv(sys: Sys, events: seq<Event>)
    requires Inv(sys)
    ensures Inv(Run(sys, events, false))
    decreases |events|
  {
    if events != [] {
      StepPreservesInv(sys, events[0]);
      RunPreservesInv(Step(sys, events[0], false), events[1..]);
    }
  }

  /** At most one construction in flight: in every state reachable from a
      fresh mount, whether the failure path is the source's or the corrected
      one, at most one caller is inside vnode_create, only while
      fRootAttaching is set, and every caller that has returned holds a
      vnode exactly when it returned 0, and never returned EAGAIN. */
  lemma AtMostOneConstruction(events: seq<Event>, asWritten: bool)
    ensures var s := Run(Init, events, asWritten);
      (forall t1, t2 :: IsCreator(s, t1) && IsCreator(s, t2) ==> t1 == t2) &&
      (forall t :: IsCreator(s, t) ==> s.rs.attaching) &&
      (forall t :: t in s.pcs && s.pcs[t].Returned? ==>
         (s.pcs[t].err == 0) == s.pcs[t].vn.Some? && s.pcs[t].err != EAGAIN)
  {
    RunKeepsSafe(Init, events, asWritten);
  }

  /** The first vnode ever created for a volume. */
  const FirstRoot: VNode := VNode(0, 0)

  /** While the root vnode is never reclaimed: at most one vnode has been
      created, it is recorded as the root once it exists, and it is the only
      candidate any caller revalidates and the only vnode any caller
      returns. */
  ghost predicate OneRootVNode(sys: Sys)
  {
    sys.nextId <= 1 &&
    sys.rs.root == (if sys.nextId == 0 then None else Some(FirstRoot)) &&
    (forall t :: t in sys.pcs && sys.pcs[t].Revalidating? ==> sys.pcs[t].candidate == FirstRoot) &&
    (forall t :: t in sys.pcs && sys.pcs[t].Returned? && sys.pcs[t].vn.Some? ==> sys.pcs[t].vn.value == FirstRoot)
  }

  lemma StepKeepsOneRootVNode(sys: Sys, e: Event, asWritten: bool)
    requires Safe(sys) && OneRootVNode(sys)
    requires !e.Reclaim?
    ensures OneRootVNode(Step(sys, e, asWritten))
  {
    match e {
      case CreateDone(t, createErr) =>
        if t in sys.pcs && sys.pcs[t] == Creating && sys.rs.attaching {
          assert IsCreator(sys, t);
          assert sys.nextId == 0;
        }
      case _ =>
    }
  }

  lemma {:induction false} RunKeepsOneRootVNode(sys: Sys, events: seq<Event>, asWritten: bool)
    requires Safe(sys) && OneRootVNode(sys)
    requires forall i :: 0 <= i < |events| ==> !events[i].Reclaim?
    ensures OneRootVNode(Run(sys, events, asWritten))
    decreases |events|
  {
    if events != [] {
      StepKeepsSafe(sys, events[0], asWritten);
      StepKeepsOneRootVNode(sys, events[0], asWritten);
      RunKeepsOneRootVNode(Step(sys, events[0], asWritten), events[1..], asWritten);
    }
  }

  /** Any number of callers racing on a fresh volume whose root vnode is
      not reclaimed, on either failure path: at most one vnode is ever
      created, and every caller that gets a root vnode gets that same one. */
  lemma OneConstructionPerVolume(events: seq<Event>, asWritten: bool)
    requires forall i :: 0 <= i < |events| ==> !events[i].Reclaim?
    ensures var s := Run(Init, events, asWritten);
      s.nextId <= 1 &&
      (forall t :: t in s.pcs && s.pcs[t].Revalidating? ==> s.pcs[t].candidate == FirstRoot) &&
      (forall t :: t in s.pcs && s.pcs[t].Returned? && s.pcs[t].err == 0 ==>
         s.pcs[t].vn == Some(FirstRoot))
  {
    RunKeepsSafe(Init, events, asWritten);
    RunKeepsOneRootVNode(Init, events, asWritten);
  }

  /** With the corrected failure path no schedule ever strands the volume:
      whenever fRootAttaching is set, some caller is inside vnode_create and
      will clear it. */
  lemma CorrectedNeverStrands(events: seq<Event>)
    ensures var s := Run(Init, events, false);
      s.rs.attaching ==> exists t :: IsCreator(s, t)
  {
    RunPreservesInv(Init, events);
  }

  /** The schedule that exposes the source's failure path: one caller,
      whose vnode_create fails with ENOMEM. */
  const FailedAttach: seq<Event> := [Call(0), Begin(0), CreateDone(0, ENOMEM)]

  /** As written, that caller returns ENOMEM but leaves fRootAttaching set
      with nobody inside vnode_create: the invariant is broken. */
  lemma AsWrittenFailedAttachBreaksInv()
    ensures var s := Run(Init, FailedAttach, true);
      s.rs.attaching && (forall t :: !IsCreator(s, t)) &&
      0 in s.pcs && s.pcs[0] == Returned(ENOMEM, None) && !Inv(s)
  {
    var s1 := Step(Init, Call(0), true);
    var s2 := Step(s1, Begin(0), true);
    var s3 := Step(s2, CreateDone(0, ENOMEM), true);
    assert s3.pcs == map[0 := Returned(ENOMEM, None)] && s3.rs.attaching;
    calc {
      Run(Init, FailedAttach, true);
      Run(s1, FailedAttach[1..], true);
      Run(s2, FailedAttach[2..], true);
      Run(s3, [], true);
    }
  }

  /** A volume stranded by the as-written failure path: fRootAttaching is
      set and nobody is inside vnode_create to clear it. */
  ghost predicate Stranded(sys: Sys)
  {
    FlagsInv(sys.rs) && sys.rs.attaching && forall t :: !IsCreator(sys, t)
  }

  /** How a later state can differ from an earlier stranded one: no new
      revalidation has begun, and every returned caller either had already
      returned or was already revalidating a candidate picked before. */
  ghost predicate NoNewReturns(sys: Sys, later: Sys)
  {
    (forall t :: t in later.pcs && later.pcs[t].Revalidating? ==> t in sys.pcs && sys.pcs[t] == later.pcs[t]) &&
    (forall t :: t in later.pcs && later.pcs[t].Returned? ==>
       t in sys.pcs && (sys.pcs[t] == later.pcs[t] || sys.pcs[t].Revalidating?))
  }

  lemma AsWrittenStepKeepsStranded(sys: Sys, e: Event)
    requires Stranded(sys)
    ensures Stranded(Step(sys, e, true)) && Step(sys, e, true).rs.root.None?
    ensures NoNewReturns(sys, Step(sys, e, true))
  {
    var next := Step(sys, e, true);
    match e {
      case Begin(t) =>
        if t in sys.pcs && sys.pcs[t] == Top {
          assert next.pcs == sys.pcs[t := Asleep];
        }
        forall u | IsCreator(next, u) ensures false {
          assert IsCreator(sys, u);
        }
      case CreateDone(t, createErr) =>
        assert !IsCreator(sys, t);
        assert next == sys;
      case Call(t) =>
        forall u | IsCreator(next, u) ensures false {
          assert IsCreator(sys, u);
        }
      case Wake(t) =>
        forall u | IsCreator(next, u) ensures false {
          assert IsCreator(sys, u);
        }
      case RevalidateDone(t) =>
        forall u | IsCreator(next, u) ensures false {
          assert IsCreator(sys, u);
        }
      case Recycle(v) =>
        assert next.pcs == sys.pcs && next.rs == sys.rs;
        forall u | IsCreator(next, u) ensures false {
          assert IsCreator(sys, u);
        }
      case Reclaim(v) =>
        assert next.pcs == sys.pcs;
    }
  }

  /** As written, once a failed vnode_create has stranded fRootAttaching,
      no schedule whatsoever gets a caller into vnode_create again, no
      caller starts a revalidation, and no caller returns unless it had
      already picked its candidate before: every caller that reaches the
      loop head from then on sleeps forever. */
  lemma {:induction false} AsWrittenStrandsEveryCaller(sys: Sys, events: seq<Event>)
    requires Stranded(sys)
    ensures Stranded(Run(sys, events, true)) && Run(sys, events, true).rs.root.None?
    ensures NoNewReturns(sys, Run(sys, events, true))
    decreases |events|
  {
    if events != [] {
      var next := Step(sys, events[0], true);
      AsWrittenStepKeepsStranded(sys, events[0]);
      AsWrittenStrandsEveryCaller(next, events[1..]);
      var final := Run(next, events[1..], true);
      forall t | t in final.pcs && final.pcs[t].Returned?
        ensures t in sys.pcs && (sys.pcs[t] == final.pcs[t] || sys.pcs[t].Revalidating?)
      {
        assert t in next.pcs;
        if next.pcs[t].Revalidating? {
          assert sys.pcs[t] == next.pcs[t];
        }
      }
    }
  }

  /** With the corrected failure path the same schedule leaves the volume
      free, and the next caller claims the attach and retries the create. */
  lemma CorrectedFailedAttachAllowsRetry()
    ensures var s := Run(Init, FailedAttach + [Call(1), Begin(1)], false);
      s.rs.attaching && IsCreator(s, 1) && 0 in s.pcs && s.pcs[0] == Returned(ENOMEM, None)
  {
    var events := FailedAttach + [Call(1), Begin(1)];
    var s1 := Step(Init, Call(0), false);
    var s2 := Step(s1, Begin(0), false);
    var s3 := Step(s2, CreateDone(0, ENOMEM), false);
    var s4 := Step(s3, Call(1), false);
    var s5 := Step(s4, Begin(1), false);
    assert s3.pcs == map[0 := Returned(ENOMEM, None)] && !s3.rs.attaching;
    assert s5.pcs == map[0 := Returned(ENOMEM, None), 1 := Creating] && s5.rs.attaching;
    calc {
      Run(Init, events, false);
      Run(s1, events[1..], false);
      Run(s2, events[2..], false);
      Run(s3, events[3..], false);
      Run(s4, events[4..], false);
      Run(s5, events[5..], false);
    }
    assert events[5..] == [];
  }
}

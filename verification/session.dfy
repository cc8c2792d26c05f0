/** One thread issuing descriptor calls one after another against one table.
    Each call carries what the vnode layer reports to it; the close inside
    dup2 follows the release rule. A run either completes, gets stuck in
    lock_acquire at some call, or faults at some call (a destroyed handle or a
    missing vnode). */
module Session {
  import opened Errors
  import opened Vop
  import opened FileTable
  import opened FileSyscalls
  import SyscallProperties
  import Corrected

  datatype Call =
    | Read(fd: int, size: nat, vop: IoResult)
    | Write(fd: int, len: nat, vop: IoResult)
    | Lseek(fd: int, offset: int, whence: int, stat: StatResult)
    | Dup2(oldfd: int, newfd: int)

  datatype Run =
    | Completed(replies: seq<Result<int>>, final: State)
    | Hung(at: nat)      // call number `at` waits forever for a lock
    | Crashed(at: nat)   // call number `at` touches a destroyed handle or a missing vnode

  /** One call, as written (`fixed` false) or corrected (`fixed` true). */
  function Step(s: State, c: Call, fixed: bool): (o: Outcome)
    requires RefCountsCover(s)
    ensures o.Returned? ==> RefCountsCover(o.post)
  {
    match c
    case Read(fd, n, vop) =>
      SyscallProperties.IoCallsKeepCover(s, fd, n, vop, 0, SEEK_SET, StatOk(0));
      Corrected.FixedCallsKeepCover(s, fd, n, vop, 0, SEEK_SET, StatOk(0));
      if fixed then Corrected.ReadFixed(s, fd, n, vop) else SysRead(s, fd, n, vop)
    case Write(fd, n, vop) =>
      SyscallProperties.IoCallsKeepCover(s, fd, n, vop, 0, SEEK_SET, StatOk(0));
      Corrected.FixedCallsKeepCover(s, fd, n, vop, 0, SEEK_SET, StatOk(0));
      if fixed then Corrected.WriteFixed(s, fd, n, vop) else SysWrite(s, fd, n, vop)
    case Lseek(fd, offset, whence, stat) =>
      SyscallProperties.IoCallsKeepCover(s, fd, 0, IoDone(0), offset, whence, stat);
      Corrected.FixedCallsKeepCover(s, fd, 0, IoDone(0), offset, whence, stat);
      if fixed then Corrected.LseekFixed(s, fd, offset, whence, stat) else SysLseek(s, fd, offset, whence, stat)
    case Dup2(oldfd, newfd) =>
      if Occupied(s, oldfd) && InRange(newfd) then
        SyscallProperties.Dup2KeepsCover(s, oldfd, newfd);
        SysDup2(s, oldfd, newfd, CloseByDesign(s, newfd))
      else SysDup2(s, oldfd, newfd, None)
  }

  /** The calls in order, stopping at the first that does not return. */
  function Execute(s: State, calls: seq<Call>, fixed: bool): (r: Run)
    requires RefCountsCover(s)
    ensures r.Completed? ==> |r.replies| == |calls| && RefCountsCover(r.final)
    ensures r.Hung? ==> r.at < |calls|
    ensures r.Crashed? ==> r.at < |calls|
    decreases |calls|
  {
    if |calls| == 0 then Completed([], s)
    else
      match Step(s, calls[0], fixed)
      case Blocked(_) => Hung(0)
      case UseAfterFree => Crashed(0)
      case NullVnode => Crashed(0)
      case Returned(reply, t) =>
        match Execute(t, calls[1..], fixed)
        case Completed(rest, f) => Completed([reply] + rest, f)
        case Hung(k) => Hung(k + 1)
        case Crashed(k) => Crashed(k + 1)
  }

  /** A corrected call never waits on a lock when no lock is held, and leaves
      no lock held. */
  lemma FixedStepKeepsLocksFree(s: State, c: Call)
    requires RefCountsCover(s) && LocksFree(s)
    ensures var o := Step(s, c, true); !o.Blocked? && (o.Returned? ==> LocksFree(o.post))
  {
    if c.Dup2? && Occupied(s, c.oldfd) && InRange(c.newfd) {
      SyscallProperties.Dup2KeepsCover(s, c.oldfd, c.newfd);
    }
  }

  /** With the corrected calls, a run that starts with no lock held never gets
      stuck on a lock, whatever the calls and whatever the storage layer
      reports, and ends with no lock held. */
  lemma {:induction false} FixedRunsNeverHang(s: State, calls: seq<Call>)
    requires RefCountsCover(s) && LocksFree(s)
    ensures var r := Execute(s, calls, true); !r.Hung? && (r.Completed? ==> LocksFree(r.final))
    decreases |calls|
  {
    if |calls| > 0 {
      FixedStepKeepsLocksFree(s, calls[0]);
      var o := Step(s, calls[0], true);
      if o.Returned? {
        FixedRunsNeverHang(o.post, calls[1..]);
      }
    }
  }
}

/** sys_read, sys_write and sys_lseek as evidently intended: the position
    advances by the bytes actually transferred (as the comment on sys_write's
    advance says), every path that takes a handle's lock releases it, and
    lseek refuses SEEK_END on a handle without a vnode with ENODEV, as read and
    write refuse such a handle. Everything else is exactly as written. */
module Corrected {
  import opened Errors
  import opened Vop
  import opened FileTable
  import opened FileSyscalls
  import SyscallProperties

  /** The shared body of the corrected read and write: the checks and locking
      of the originals, then cur_po advanced by the count transferred. */
  function CompleteTransfer(s: State, fd: int, n: nat, vop: IoResult): (o: Outcome)
    requires Valid(s)
  {
    match IoTarget(s, fd)
    case Err(e) => Returned(Err(e), s)
    case Ok(id) =>
      var h := s.handles[id];
      if h.lockHeld then Blocked(s)
      else
        match vop
        case IoError(e) => Returned(Err(e), s)
        case IoDone(resid) =>
          var count := n - resid;
          Returned(Ok(count), Put(s, id, h.(curPo := h.curPo + count)))
  }

  /** Read and write reach the storage layer and it reports success. */
  predicate TransferSucceeds(s: State, fd: int, vop: IoResult)
    requires Valid(s)
  {
    IoReady(s, fd) && !At(s, fd).lockHeld && vop.IoDone?
  }

  function ReadFixed(s: State, fd: int, size: nat, vop: IoResult): (o: Outcome)
    requires Valid(s)
    ensures !TransferSucceeds(s, fd, vop) ==> o == SysRead(s, fd, size, vop)
    ensures TransferSucceeds(s, fd, vop) ==>
              Commits(s, fd, o, Ok(size - vop.resid), At(s, fd).curPo + (size - vop.resid), false)
    ensures LocksFree(s) ==> o.Returned? && LocksFree(o.post)
  {
    CompleteTransfer(s, fd, size, vop)
  }

  function WriteFixed(s: State, fd: int, len: nat, vop: IoResult): (o: Outcome)
    requires Valid(s)
    ensures !TransferSucceeds(s, fd, vop) ==> o == SysWrite(s, fd, len, vop)
    ensures TransferSucceeds(s, fd, vop) ==>
              Commits(s, fd, o, Ok(len - vop.resid), At(s, fd).curPo + (len - vop.resid), false)
    ensures LocksFree(s) ==> o.Returned? && LocksFree(o.post)
  {
    CompleteTransfer(s, fd, len, vop)
  }

  /** lseek gets past its checks and the lock and is asked for SEEK_END on a
      handle that has no vnode to stat. */
  predicate StatWithoutVnode(s: State, fd: int, whence: int)
    requires Valid(s)
  {
    Seekable(s, fd) && !At(s, fd).lockHeld && whence == SEEK_END && !At(s, fd).vnodePresent
  }

  /** lseek gets past its checks and the lock and computes a negative position. */
  predicate NegativeTarget(s: State, fd: int, offset: int, whence: int, stat: StatResult)
    requires Valid(s)
  {
    && Seekable(s, fd)
    && !At(s, fd).lockHeld
    && !StatWithoutVnode(s, fd, whence)
    && var p := NewPosition(At(s, fd).curPo, offset, whence, stat);
       p.Ok? && p.value < 0
  }

  function LseekFixed(s: State, fd: int, offset: int, whence: int, stat: StatResult): (o: Outcome)
    requires Valid(s)
    ensures !NegativeTarget(s, fd, offset, whence, stat) && !StatWithoutVnode(s, fd, whence) ==>
              o == SysLseek(s, fd, offset, whence, stat)
    ensures NegativeTarget(s, fd, offset, whence, stat) ==> o == Returned(Err(EINVAL), s)
    ensures StatWithoutVnode(s, fd, whence) ==> o == Returned(Err(ENODEV), s)
    ensures LocksFree(s) ==> o.Returned? && LocksFree(o.post)
  {
    match SeekTarget(s, fd)
    case Err(e) => Returned(Err(e), s)
    case Ok(id) =>
      var h := s.handles[id];
      if h.lockHeld then Blocked(s)
      else if whence == SEEK_END && !h.vnodePresent then Returned(Err(ENODEV), s)
      else
        match NewPosition(h.curPo, offset, whence, stat)
        case Err(e) => Returned(Err(e), s)
        case Ok(pos) =>
          if pos < 0 then Returned(Err(EINVAL), s)
          else Returned(Ok(pos), Put(s, id, h.(curPo := pos)))
  }

  /** The corrected calls, like the originals, keep the reference-count invariant. */
  lemma FixedCallsKeepCover(s: State, fd: int, n: nat, vop: IoResult, offset: int, whence: int, stat: StatResult)
    requires RefCountsCover(s)
    ensures var o := ReadFixed(s, fd, n, vop); o.Returned? ==> RefCountsCover(o.post)
    ensures var o := WriteFixed(s, fd, n, vop); o.Returned? ==> RefCountsCover(o.post)
    ensures var o := LseekFixed(s, fd, offset, whence, stat); o.Returned? ==> RefCountsCover(o.post)
  {
    if Occupied(s, fd) {
      var id := IdAt(s, fd);
      var r := ReadFixed(s, fd, n, vop);
      if r.Returned? && r.post != s {
        SyscallProperties.SameButKeepsCover(s, r.post, id);
      }
      var w := WriteFixed(s, fd, n, vop);
      if w.Returned? && w.post != s {
        SyscallProperties.SameButKeepsCover(s, w.post, id);
      }
      SyscallProperties.IoCallsKeepCover(s, fd, n, vop, offset, whence, stat);
    }
  }

  /** A successful corrected read or write moves the position by exactly the
      count it returns, so the next transfer starts right after the last byte
      moved; with no bytes left over this is what the original does too. */
  lemma FixedAdvanceIsCount(s: State, fd: int, n: nat, resid: nat)
    requires Valid(s) && TransferSucceeds(s, fd, IoDone(resid))
    ensures var o := ReadFixed(s, fd, n, IoDone(resid));
            o.reply.Ok? && At(o.post, fd).curPo == At(s, fd).curPo + o.reply.value
    ensures var o := WriteFixed(s, fd, n, IoDone(resid));
            o.reply.Ok? && At(o.post, fd).curPo == At(s, fd).curPo + o.reply.value
    ensures resid == 0 ==> ReadFixed(s, fd, n, IoDone(resid)) == SysRead(s, fd, n, IoDone(resid))
  {
  }
}

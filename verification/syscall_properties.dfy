/** Properties of the descriptor calls as written that relate a call to an
    invariant it keeps or to the calls that follow it. */
module SyscallProperties {
  import opened Errors
  import opened Vop
  import opened FileTable
  import opened FileSyscalls

  /** Read, write and lseek never touch the table or any ref_count, so they keep
      the reference-count invariant. */
  lemma IoCallsKeepCover(s: State, fd: int, n: nat, vop: IoResult, offset: int, whence: int, stat: StatResult)
    requires RefCountsCover(s)
    ensures var o := SysRead(s, fd, n, vop); o.Returned? ==> RefCountsCover(o.post)
    ensures var o := SysWrite(s, fd, n, vop); o.Returned? ==> RefCountsCover(o.post)
    ensures var o := SysLseek(s, fd, offset, whence, stat); o.Returned? ==> RefCountsCover(o.post)
  {
    ReadKeepsCover(s, fd, n, vop);
    WriteKeepsCover(s, fd, n, vop);
    LseekKeepsCover(s, fd, offset, whence, stat);
  }

  lemma ReadKeepsCover(s: State, fd: int, n: nat, vop: IoResult)
    requires RefCountsCover(s)
    ensures var o := SysRead(s, fd, n, vop); o.Returned? ==> RefCountsCover(o.post)
  {
    var o := SysRead(s, fd, n, vop);
    if o.Returned? && o.post != s {
      SameButKeepsCover(s, o.post, IdAt(s, fd));
    }
  }

  lemma WriteKeepsCover(s: State, fd: int, n: nat, vop: IoResult)
    requires RefCountsCover(s)
    ensures var o := SysWrite(s, fd, n, vop); o.Returned? ==> RefCountsCover(o.post)
  {
    var o := SysWrite(s, fd, n, vop);
    if o.Returned? && o.post != s {
      SameButKeepsCover(s, o.post, IdAt(s, fd));
    }
  }

  lemma LseekKeepsCover(s: State, fd: int, offset: int, whence: int, stat: StatResult)
    requires RefCountsCover(s)
    ensures var o := SysLseek(s, fd, offset, whence, stat); o.Returned? ==> RefCountsCover(o.post)
  {
    var o := SysLseek(s, fd, offset, whence, stat);
    if o.Returned? && o.post != s {
      SameButKeepsCover(s, o.post, IdAt(s, fd));
    }
  }

  /** A change confined to one handle's position and lock keeps the
      reference-count invariant. */
  lemma SameButKeepsCover(s: State, t: State, id: HandleId)
    requires RefCountsCover(s) && SameBut(s, t, id) && id in s.handles
    requires t.handles[id].refCount == s.handles[id].refCount
    ensures RefCountsCover(t)
  {
  }

  /** sys_read releases the lock on every path that takes it: from a state with
      no lock held it always returns, and leaves no lock held. */
  lemma ReadReleasesLock(s: State, fd: int, size: nat, vop: IoResult)
    requires Valid(s) && LocksFree(s)
    ensures var o := SysRead(s, fd, size, vop); o.Returned? && LocksFree(o.post)
  {
  }

  /** With a storage layer that never reports more left over than was asked
      for, read and write return a count between 0 and the request. */
  lemma TransferCountBounded(s: State, fd: int, n: nat, resid: nat)
    requires Valid(s) && resid <= n
    ensures var o := SysRead(s, fd, n, IoDone(resid)); o.Returned? && o.reply.Ok? ==> 0 <= o.reply.value <= n
    ensures var o := SysWrite(s, fd, n, IoDone(resid)); o.Returned? && o.reply.Ok? ==> 0 <= o.reply.value <= n
  {
  }

  /** lseek(fd, 0, SEEK_CUR) reports the current position and changes nothing
      (a negative cur_po, which no call here produces, would be EINVAL). */
  lemma LseekCurZeroKeepsOffset(s: State, fd: int, stat: StatResult)
    requires Valid(s) && Seekable(s, fd) && !At(s, fd).lockHeld && At(s, fd).curPo >= 0
    ensures SysLseek(s, fd, 0, SEEK_CUR, stat) == Returned(Ok(At(s, fd).curPo), s)
  {
    var o := SysLseek(s, fd, 0, SEEK_CUR, stat);
    assert o.post.handles == s.handles;
  }

  /** After lseek(fd, p, SEEK_SET) with p >= 0, lseek(fd, 0, SEEK_CUR) reports p
      and changes nothing further. */
  lemma LseekSetThenCur(s: State, fd: int, p: int, stat1: StatResult, stat2: StatResult)
    requires Valid(s) && Seekable(s, fd) && !At(s, fd).lockHeld && p >= 0
    ensures var o := SysLseek(s, fd, p, SEEK_SET, stat1);
            && o == Returned(Ok(p), o.post)
            && SysLseek(o.post, fd, 0, SEEK_CUR, stat2) == o
  {
    var o := SysLseek(s, fd, p, SEEK_SET, stat1);
    LseekCurZeroKeepsOffset(o.post, fd, stat2);
  }

  /** SEEK_END with offset -k on a file of size S lands on S - k when k <= S;
      when k > S it is EINVAL and cur_po is unchanged. A handle without a vnode
      never gets that far: VOP_STAT is handed the missing vnode. */
  lemma LseekFromEnd(s: State, fd: int, size: int, k: int)
    requires Valid(s) && Seekable(s, fd) && !At(s, fd).lockHeld
    ensures var o := SysLseek(s, fd, -k, SEEK_END, StatOk(size));
            && (!At(s, fd).vnodePresent ==> o == NullVnode)
            && (At(s, fd).vnodePresent && k <= size ==>
                  o.Returned? && o.reply == Ok(size - k) && At(o.post, fd).curPo == size - k)
            && (At(s, fd).vnodePresent && k > size ==>
                  o.Returned? && o.reply == Err(EINVAL) && At(o.post, fd).curPo == At(s, fd).curPo)
  {
  }

  /** sys_dup2 with a close that follows the release rule keeps the
      reference-count invariant and the no-lock-held state, and when the two
      descriptors differ it never touches a destroyed handle: with no lock
      held it then always returns. */
  lemma Dup2KeepsCover(s: State, oldfd: int, newfd: int)
    requires RefCountsCover(s) && Occupied(s, oldfd) && InRange(newfd)
    ensures var o := SysDup2(s, oldfd, newfd, CloseByDesign(s, newfd));
            && (oldfd != newfd ==> !o.UseAfterFree?)
            && (LocksFree(s) && oldfd != newfd ==> o.Returned?)
            && (o.Returned? ==> RefCountsCover(o.post))
            && (LocksFree(s) ==> !o.Blocked? && (o.Returned? ==> LocksFree(o.post)))
  {
    var id := IdAt(s, oldfd);
    var c := AfterClose(s, newfd, CloseByDesign(s, newfd));
    CloseByDesignKeepsCover(s, newfd);
    if oldfd != newfd {
      assert c.table[oldfd] == Some(id);
    }
    if id in c.handles {
      var h := c.handles[id];
      var o := SysDup2(s, oldfd, newfd, CloseByDesign(s, newfd));
      assert h.lockHeld ==> o == Blocked(State(c.table[newfd := Some(id)], c.handles));
      assert !h.lockHeld ==>
        o == Returned(Ok(newfd), State(c.table[newfd := Some(id)], c.handles[id := h.(refCount := h.refCount + 1)]));
      InstallKeepsCover(c, newfd, id);
    }
  }

  /** The close step of dup2, following the release rule, keeps the
      reference-count invariant and the no-lock-held state, and leaves slot
      newfd empty. */
  lemma CloseByDesignKeepsCover(s: State, newfd: int)
    requires RefCountsCover(s) && InRange(newfd)
    ensures var c := AfterClose(s, newfd, CloseByDesign(s, newfd));
            && RefCountsCover(c) && c.table[newfd] == None
            && (LocksFree(s) ==> LocksFree(c))
  {
    if Occupied(s, newfd) {
      CloseKeepsCover(s, newfd);
    }
  }

  /** After a successful dup2 of two distinct descriptors both name the same
      handle, with the original's position and vnode. */
  lemma Dup2SharesHandle(s: State, oldfd: int, newfd: int)
    requires RefCountsCover(s) && Occupied(s, oldfd) && InRange(newfd) && oldfd != newfd
    ensures var o := SysDup2(s, oldfd, newfd, CloseByDesign(s, newfd));
            o.Returned? ==>
              && Valid(o.post) && Occupied(o.post, oldfd) && Occupied(o.post, newfd)
              && IdAt(o.post, newfd) == IdAt(o.post, oldfd) == IdAt(s, oldfd)
              && At(o.post, newfd).curPo == At(s, oldfd).curPo
              && At(o.post, newfd).vnodePresent == At(s, oldfd).vnodePresent
  {
    Dup2KeepsCover(s, oldfd, newfd);
  }

  /** The two descriptors share one offset: a read through the duplicate moves
      the position seen through the original. */
  lemma ReadThroughDuplicateMovesOriginal(s: State, oldfd: int, newfd: int, size: nat, vop: IoResult)
    requires RefCountsCover(s) && Occupied(s, oldfd) && InRange(newfd) && oldfd != newfd
    requires SysDup2(s, oldfd, newfd, CloseByDesign(s, newfd)).Returned?
    ensures var p := SysDup2(s, oldfd, newfd, CloseByDesign(s, newfd)).post;
            Valid(p) &&
            var r := SysRead(p, newfd, size, vop);
            r.Returned? && r.reply.Ok? ==> At(r.post, oldfd).curPo == At(s, oldfd).curPo + size
  {
    Dup2SharesHandle(s, oldfd, newfd);
  }

  /** Closing the original after a dup2 leaves the duplicate working: its handle
      survives with the same position and vnode and one reference fewer. */
  lemma CloseOriginalKeepsDuplicate(s: State, oldfd: int, newfd: int)
    requires RefCountsCover(s) && Occupied(s, oldfd) && InRange(newfd) && oldfd != newfd
    requires SysDup2(s, oldfd, newfd, CloseByDesign(s, newfd)).Returned?
    ensures var p := SysDup2(s, oldfd, newfd, CloseByDesign(s, newfd)).post;
            RefCountsCover(p) &&
            var q := FileClose(p, oldfd, CloseByDesign(p, oldfd));
            && RefCountsCover(q) && Occupied(q, newfd)
            && At(q, newfd) == At(p, newfd).(refCount := At(p, newfd).refCount - 1)
            && At(q, newfd).curPo == At(s, oldfd).curPo
  {
    Dup2KeepsCover(s, oldfd, newfd);
    Dup2SharesHandle(s, oldfd, newfd);
    var p := SysDup2(s, oldfd, newfd, CloseByDesign(s, newfd)).post;
    var id := IdAt(p, oldfd);
    CountRefsUpdate(p.table, oldfd, None, id);
    CountRefsZero(p.table[oldfd := None], id);
    CloseKeepsCover(p, oldfd);
  }

  /** The unimplemented calls report EUNIMP, never success, and change nothing. */
  lemma StubsReportUnimplemented(s: State, fd: int, buflen: nat)
    ensures SysChdir(s) == Returned(Err(EUNIMP), s)
    ensures SysGetcwd(s, buflen) == Returned(Err(EUNIMP), s)
    ensures SysFstat(s, fd) == Returned(Err(EUNIMP), s)
    ensures SysGetdirentry(s, fd, buflen) == Returned(Err(EUNIMP), s)
  {
  }
}

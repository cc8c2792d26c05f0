/** Where the descriptor calls as written depart from what they evidently
    intend, each shown for all inputs and on a concrete run, next to the
    corrected behaviour. */
module Findings {
  import opened Errors
  import opened Vop
  import opened FileTable
  import opened FileSyscalls
  import opened Corrected
  import opened Session
  import SyscallProperties

  /** A table whose only open descriptor is 3, on a vnode-backed handle at
      position 0 with one reference and its lock free. */
  function Demo(): (d: State)
    ensures RefCountsCover(d) && LocksFree(d)
    ensures Occupied(d, 3) && IoReady(d, 3) && Seekable(d, 3)
    ensures At(d, 3) == Handle(true, 0, 1, false)
  {
    var empty: seq<Option<HandleId>> := seq(OPEN_MAX, _ => None);
    CountRefsZero(empty, 0);
    CountRefsUpdate(empty, 3, Some(0), 0);
    State(empty[3 := Some(0)], map[0 := Handle(true, 0, 1, false)])
  }

  /** Short transfers: read and write move cur_po by the size requested, so
      after a transfer that left `resid` bytes over, the position lies `resid`
      bytes past the last byte moved; the corrected calls land right after it. */
  lemma ShortTransferOvershoots(s: State, fd: int, n: nat, resid: nat)
    requires Valid(s) && TransferSucceeds(s, fd, IoDone(resid)) && 0 < resid <= n
    ensures var o := SysRead(s, fd, n, IoDone(resid));
            o.reply == Ok(n - resid) && At(o.post, fd).curPo == At(s, fd).curPo + o.reply.value + resid
    ensures var o := SysWrite(s, fd, n, IoDone(resid));
            o.reply == Ok(n - resid) && At(o.post, fd).curPo == At(s, fd).curPo + o.reply.value + resid
    ensures ReadFixed(s, fd, n, IoDone(resid)) != SysRead(s, fd, n, IoDone(resid))
  {
  }

  /** A successful sys_write returns with the handle's lock held, so the next
      read or write on that descriptor waits forever; the corrected write
      leaves the lock free. */
  lemma WriteLeavesLockHeld(s: State, fd: int, len: nat, resid: nat, m: nat, vop: IoResult)
    requires Valid(s) && TransferSucceeds(s, fd, IoDone(resid))
    ensures var o := SysWrite(s, fd, len, IoDone(resid));
            && o.reply.Ok? && At(o.post, fd).lockHeld && !LocksFree(o.post)
            && SysRead(o.post, fd, m, vop) == Blocked(o.post)
            && SysWrite(o.post, fd, m, vop) == Blocked(o.post)
    ensures var o := WriteFixed(s, fd, len, IoDone(resid)); !At(o.post, fd).lockHeld
  {
  }

  /** sys_lseek reaching a negative position returns EINVAL with the lock held,
      so the next call on that handle waits forever; the corrected lseek
      returns EINVAL with nothing changed. */
  lemma NegativeSeekLeavesLockHeld(s: State, fd: int, offset: int, whence: int, stat: StatResult,
                                   offset2: int, whence2: int, stat2: StatResult)
    requires Valid(s) && NegativeTarget(s, fd, offset, whence, stat)
    ensures var o := SysLseek(s, fd, offset, whence, stat);
            && o.reply == Err(EINVAL) && At(o.post, fd).lockHeld
            && SysLseek(o.post, fd, offset2, whence2, stat2) == Blocked(o.post)
    ensures LseekFixed(s, fd, offset, whence, stat) == Returned(Err(EINVAL), s)
  {
  }

  /** sys_lseek never checks the handle's vnode, so SEEK_END on a handle without
      one passes the missing vnode to VOP_STAT, whatever VOP_STAT would report.
      Read and write refuse such a handle with ENODEV, and so does the
      corrected lseek. */
  lemma SeekEndWithoutVnodeFaults(s: State, fd: int, offset: int, stat: StatResult, n: nat, vop: IoResult)
    requires Valid(s) && StatWithoutVnode(s, fd, SEEK_END)
    ensures SysLseek(s, fd, offset, SEEK_END, stat) == NullVnode
    ensures SysRead(s, fd, n, vop) == Returned(Err(ENODEV), s)
    ensures SysWrite(s, fd, n, vop) == Returned(Err(ENODEV), s)
    ensures LseekFixed(s, fd, offset, SEEK_END, stat) == Returned(Err(ENODEV), s)
  {
  }

  /** The table of `Demo` with the handle at slot 3 lacking a vnode. */
  function NoVnodeDemo(): (d: State)
    ensures RefCountsCover(d) && LocksFree(d)
    ensures Occupied(d, 3) && Seekable(d, 3) && !IoReady(d, 3)
    ensures At(d, 3) == Handle(false, 0, 1, false)
  {
    var d := Put(Demo(), 0, Handle(false, 0, 1, false));
    SyscallProperties.SameButKeepsCover(Demo(), d, 0);
    d
  }

  /** lseek(3, 0, SEEK_END) on a handle without a vnode: as written the call
      faults; corrected it answers ENODEV and changes nothing. */
  lemma NoVnodeSeekScenarioRuns()
    ensures Execute(NoVnodeDemo(), [Lseek(3, 0, SEEK_END, StatOk(42))], false) == Crashed(0)
    ensures Execute(NoVnodeDemo(), [Lseek(3, 0, SEEK_END, StatOk(42))], true)
            == Completed([Err(ENODEV)], NoVnodeDemo())
  {
    var d := NoVnodeDemo();
    SeekEndWithoutVnodeFaults(d, 3, 0, StatOk(42), 0, IoDone(0));
  }

  /** write(fd, "hello", 5); lseek(fd, 0, SEEK_SET); read(fd, buf, 5). */
  function HelloScenario(): seq<Call> {
    [Write(3, 5, IoDone(0)), Lseek(3, 0, SEEK_SET, StatOk(5)), Read(3, 5, IoDone(0))]
  }

  /** As written, the lseek after the write waits forever on the lock the write
      kept; corrected, the run answers 5, 0, 5 and ends at position 5. */
  lemma HelloScenarioRuns()
    ensures Execute(Demo(), HelloScenario(), false) == Hung(1)
    ensures var r := Execute(Demo(), HelloScenario(), true);
            && r.Completed? && r.replies == [Ok(5), Ok(0), Ok(5)]
            && Valid(r.final) && Occupied(r.final, 3) && At(r.final, 3).curPo == 5
  {
    HelloScenarioHangsAsWritten();
    HelloScenarioCorrected();
  }

  lemma HelloScenarioHangsAsWritten()
    ensures Execute(Demo(), HelloScenario(), false) == Hung(1)
  {
    var d := Demo();
    var w := SysWrite(d, 3, 5, IoDone(0));
    assert Step(d, HelloScenario()[0], false) == w;
    assert At(w.post, 3).lockHeld;
    assert Execute(w.post, HelloScenario()[1..], false) == Hung(0);
  }

  lemma HelloScenarioCorrected()
    ensures var r := Execute(Demo(), HelloScenario(), true);
            && r.Completed? && r.replies == [Ok(5), Ok(0), Ok(5)]
            && Valid(r.final) && Occupied(r.final, 3) && At(r.final, 3).curPo == 5
  {
    var d := Demo();
    var w := WriteFixed(d, 3, 5, IoDone(0));
    var k := LseekFixed(w.post, 3, 0, SEEK_SET, StatOk(5));
    assert k.reply == Ok(0);
    var rd := ReadFixed(k.post, 3, 5, IoDone(0));
    assert rd.reply == Ok(5);
  }

  /** lseek(3, -1, SEEK_SET); lseek(3, 0, SEEK_CUR). */
  function NegativeSeekScenario(): seq<Call> {
    [Lseek(3, -1, SEEK_SET, StatOk(0)), Lseek(3, 0, SEEK_CUR, StatOk(0))]
  }

  /** As written, the second lseek waits forever; corrected, the run answers
      EINVAL then 0 and leaves the table as it was. */
  lemma NegativeSeekScenarioRuns()
    ensures Execute(Demo(), NegativeSeekScenario(), false) == Hung(1)
    ensures Execute(Demo(), NegativeSeekScenario(), true) == Completed([Err(EINVAL), Ok(0)], Demo())
  {
    var d := Demo();
    var k := SysLseek(d, 3, -1, SEEK_SET, StatOk(0));
    assert At(k.post, 3).lockHeld;
    var k' := LseekFixed(d, 3, -1, SEEK_SET, StatOk(0));
    assert k' == Returned(Err(EINVAL), d);
    SyscallProperties.LseekCurZeroKeepsOffset(d, 3, StatOk(0));
  }

  /** read(3, buf, 10) where the storage layer moves 6 bytes; lseek(3, 0, SEEK_CUR). */
  function ShortReadScenario(): seq<Call> {
    [Read(3, 10, IoDone(4)), Lseek(3, 0, SEEK_CUR, StatOk(0))]
  }

  /** As written, 6 bytes are read but the position reported is 10; corrected,
      it is 6. */
  lemma ShortReadScenarioRuns()
    ensures var r := Execute(Demo(), ShortReadScenario(), false); r.Completed? && r.replies == [Ok(6), Ok(10)]
    ensures var r := Execute(Demo(), ShortReadScenario(), true); r.Completed? && r.replies == [Ok(6), Ok(6)]
  {
    var d := Demo();
    var a := SysRead(d, 3, 10, IoDone(4));
    assert At(a.post, 3).curPo == 10 && !At(a.post, 3).lockHeld;
    var b := ReadFixed(d, 3, 10, IoDone(4));
    assert At(b.post, 3).curPo == 6 && !At(b.post, 3).lockHeld;
  }
}

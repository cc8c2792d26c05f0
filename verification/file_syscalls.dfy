/** The descriptor system calls sys_dup2, sys_read, sys_write and sys_lseek as
    they are written, each a pure transition from a table state (plus what the
    vnode layer and file_close reported) to an outcome.

    An outcome is either the call returning (an error number, or 0 with a
    retval) together with the state it leaves, or the call getting stuck in
    lock_acquire on a flock that an earlier call left held, or dup2 using a
    handle that the close it just made has destroyed, or lseek handing a
    missing vnode to VOP_STAT. */
module FileSyscalls {
  import opened Errors
  import opened Vop
  import opened FileTable

  /** The `whence` values of kern/seek.h. */
  const SEEK_SET: int := 0
  const SEEK_CUR: int := 1
  const SEEK_END: int := 2

  datatype Outcome =
    | Returned(reply: Result<int>, post: State)
    | Blocked(at: State)        // waits in lock_acquire for a lock no one will release
    | UseAfterFree              // touches a handle that has been destroyed
    | NullVnode                 // passes a handle's missing vnode to VOP_STAT

  /** Descriptors 0, 1 and 2, which lseek refuses as console streams. */
  predicate IsStdStream(fd: int) {
    0 <= fd < 3
  }

  predicate IsWhence(whence: int) {
    whence == SEEK_SET || whence == SEEK_CUR || whence == SEEK_END
  }

  /** Slot `fd` holds a handle that has a vnode: read and write get past their checks. */
  predicate IoReady(s: State, fd: int)
    requires Valid(s)
  {
    Occupied(s, fd) && At(s, fd).vnodePresent
  }

  /** Slot `fd` is occupied and not a console stream: lseek gets past its checks. */
  predicate Seekable(s: State, fd: int)
    requires Valid(s)
  {
    Occupied(s, fd) && !IsStdStream(fd)
  }

  /** `t` has the same table and the same handles as `s` except possibly handle `id`. */
  predicate SameBut(s: State, t: State, id: HandleId) {
    && t.table == s.table
    && t.handles.Keys == s.handles.Keys
    && forall k | k in s.handles && k != id :: t.handles[k] == s.handles[k]
  }

  /** Outcome `o` returns `reply` and changes nothing but the handle at `fd`,
      whose position becomes `pos` and whose flock is left held iff `locked`. */
  predicate Commits(s: State, fd: int, o: Outcome, reply: Result<int>, pos: int, locked: bool)
    requires Valid(s) && Occupied(s, fd)
  {
    && o.Returned?
    && o.reply == reply
    && Valid(o.post)
    && SameBut(s, o.post, IdAt(s, fd))
    && At(o.post, fd) == At(s, fd).(curPo := pos, lockHeld := locked)
  }

  /** The checks sys_read and sys_write make before taking the lock, in order:
      descriptor in range, slot occupied, vnode present. */
  function IoTarget(s: State, fd: int): (r: Result<HandleId>)
    requires Valid(s)
    ensures r.Ok? <==> IoReady(s, fd)
    ensures r.Ok? ==> r.value == IdAt(s, fd)
    ensures !Occupied(s, fd) ==> r == Err(EBADF)
    ensures Occupied(s, fd) && !At(s, fd).vnodePresent ==> r == Err(ENODEV)
  {
    if !InRange(fd) then Err(EBADF)
    else if s.table[fd].None? then Err(EBADF)
    else if !s.handles[s.table[fd].value].vnodePresent then Err(ENODEV)
    else Ok(s.table[fd].value)
  }

  /** The checks sys_lseek makes before taking the lock, in order: descriptor in
      range, not a console stream, slot occupied. */
  function SeekTarget(s: State, fd: int): (r: Result<HandleId>)
    requires Valid(s)
    ensures r.Ok? <==> Seekable(s, fd)
    ensures r.Ok? ==> r.value == IdAt(s, fd)
    ensures !InRange(fd) ==> r == Err(EBADF)
    ensures IsStdStream(fd) ==> r == Err(ESPIPE)
    ensures InRange(fd) && !IsStdStream(fd) && !Occupied(s, fd) ==> r == Err(EBADF)
  {
    if !InRange(fd) then Err(EBADF)
    else if 0 <= fd < 3 then Err(ESPIPE)
    else if s.table[fd].None? then Err(EBADF)
    else Ok(s.table[fd].value)
  }

  /** The `switch (whence)` of sys_lseek: the position asked for, or the error. */
  function NewPosition(cur: int, offset: int, whence: int, stat: StatResult): (r: Result<int>) {
    if whence == SEEK_SET then Ok(offset)
    else if whence == SEEK_CUR then Ok(cur + offset)
    else if whence == SEEK_END then
      match stat
      case StatError(e) => Err(e)
      case StatOk(size) => Ok(size + offset)
    else Err(EINVAL)
  }

  /** sys_read: `size` bytes requested; `vop` is what VOP_READ reported. */
  function SysRead(s: State, fd: int, size: nat, vop: IoResult): (o: Outcome)
    requires Valid(s)
    ensures !Occupied(s, fd) ==> o == Returned(Err(EBADF), s)
    ensures Occupied(s, fd) && !At(s, fd).vnodePresent ==> o == Returned(Err(ENODEV), s)
    ensures IoReady(s, fd) && At(s, fd).lockHeld ==> o == Blocked(s)
    ensures IoReady(s, fd) && !At(s, fd).lockHeld && vop.IoError? ==> o == Returned(Err(vop.errno), s)
    ensures IoReady(s, fd) && !At(s, fd).lockHeld && vop.IoDone? ==>
              Commits(s, fd, o, Ok(size - vop.resid), At(s, fd).curPo + size, false)
  {
    match IoTarget(s, fd)
    case Err(e) => Returned(Err(e), s)
    case Ok(id) =>
      var h := s.handles[id];
      if h.lockHeld then Blocked(s)
      else
        match vop
        case IoError(e) => Returned(Err(e), s)
        case IoDone(resid) => Returned(Ok(size - resid), Put(s, id, h.(curPo := h.curPo + size)))
  }

  /** sys_write: `len` bytes offered; `vop` is what VOP_WRITE reported. */
  function SysWrite(s: State, fd: int, len: nat, vop: IoResult): (o: Outcome)
    requires Valid(s)
    ensures !Occupied(s, fd) ==> o == Returned(Err(EBADF), s)
    ensures Occupied(s, fd) && !At(s, fd).vnodePresent ==> o == Returned(Err(ENODEV), s)
    ensures IoReady(s, fd) && At(s, fd).lockHeld ==> o == Blocked(s)
    ensures IoReady(s, fd) && !At(s, fd).lockHeld && vop.IoError? ==> o == Returned(Err(vop.errno), s)
    ensures IoReady(s, fd) && !At(s, fd).lockHeld && vop.IoDone? ==>
              Commits(s, fd, o, Ok(len - vop.resid), At(s, fd).curPo + len, true)
  {
    match IoTarget(s, fd)
    case Err(e) => Returned(Err(e), s)
    case Ok(id) =>
      var h := s.handles[id];
      if h.lockHeld then Blocked(s)
      else
        match vop
        case IoError(e) => Returned(Err(e), s)
        case IoDone(resid) =>
          // the success path returns without lock_release
          Returned(Ok(len - resid), Put(s, id, h.(curPo := h.curPo + len, lockHeld := true)))
  }

  /** How sys_lseek ends once it holds the lock and has computed `pos`: a
      negative position is EINVAL with the lock still held; otherwise cur_po
      becomes `pos`, the lock is released and `pos` is returned. */
  predicate Seeks(s: State, fd: int, pos: int, o: Outcome)
    requires Valid(s) && Occupied(s, fd)
  {
    && (pos < 0 ==> Commits(s, fd, o, Err(EINVAL), At(s, fd).curPo, true))
    && (pos >= 0 ==> Commits(s, fd, o, Ok(pos), pos, false))
  }

  /** sys_lseek; `stat` is what VOP_STAT reported (consulted for SEEK_END only).
      Unlike read and write, lseek never checks that the handle has a vnode, so
      SEEK_END on a handle without one hands VOP_STAT a null vnode. */
  function SysLseek(s: State, fd: int, offset: int, whence: int, stat: StatResult): (o: Outcome)
    requires Valid(s)
    ensures !InRange(fd) ==> o == Returned(Err(EBADF), s)
    ensures IsStdStream(fd) ==> o == Returned(Err(ESPIPE), s)
    ensures InRange(fd) && !IsStdStream(fd) && !Occupied(s, fd) ==> o == Returned(Err(EBADF), s)
    ensures Seekable(s, fd) && At(s, fd).lockHeld ==> o == Blocked(s)
    ensures Seekable(s, fd) && !At(s, fd).lockHeld ==>
              && (whence == SEEK_SET ==> Seeks(s, fd, offset, o))
              && (whence == SEEK_CUR ==> Seeks(s, fd, At(s, fd).curPo + offset, o))
              && (whence == SEEK_END && !At(s, fd).vnodePresent ==> o == NullVnode)
              && (whence == SEEK_END && At(s, fd).vnodePresent && stat.StatOk? ==> Seeks(s, fd, stat.size + offset, o))
              && (whence == SEEK_END && At(s, fd).vnodePresent && stat.StatError? ==> o == Returned(Err(stat.errno), s))
              && (!IsWhence(whence) ==> o == Returned(Err(EINVAL), s))
  {
    match SeekTarget(s, fd)
    case Err(e) => Returned(Err(e), s)
    case Ok(id) =>
      var h := s.handles[id];
      if h.lockHeld then Blocked(s)
      else if whence == SEEK_END && !h.vnodePresent then NullVnode
      else
        match NewPosition(h.curPo, offset, whence, stat)
        case Err(e) => Returned(Err(e), s)
        case Ok(pos) =>
          // the negative-position return skips lock_release
          if pos < 0 then Returned(Err(EINVAL), Put(s, id, h.(lockHeld := true)))
          else Returned(Ok(pos), Put(s, id, h.(curPo := pos)))
  }

  /** The state sys_dup2 continues from after its `file_close(newfd)` step:
      slot `newfd` is empty whether or not it was occupied, no other slot
      changes, and the only handle touched is the one slot `newfd` held, which
      becomes `survivor` or is destroyed. An empty slot means no close at all. */
  function AfterClose(s: State, newfd: int, survivor: Option<Handle>): (c: State)
    requires Valid(s) && InRange(newfd)
    ensures |c.table| == OPEN_MAX && c.table[newfd] == None
    ensures forall i | 0 <= i < OPEN_MAX && i != newfd :: c.table[i] == s.table[i]
    ensures forall id | id in s.handles && !(Occupied(s, newfd) && id == IdAt(s, newfd)) ::
              id in c.handles && c.handles[id] == s.handles[id]
    ensures c.handles.Keys <= s.handles.Keys
    ensures Occupied(s, newfd) ==>
              && (IdAt(s, newfd) in c.handles <==> survivor.Some?)
              && (survivor.Some? ==> c.handles[IdAt(s, newfd)] == survivor.value)
    ensures !Occupied(s, newfd) ==> c == s
  {
    if s.table[newfd].Some? then FileClose(s, newfd, survivor) else s
  }

  /** What a successful sys_dup2 leaves: slot `newfd` names the handle of slot
      `oldfd`, whose ref_count is one more than after the close step; every
      other slot is as before the call; every other handle is as after the
      close step, and so as before the call unless slot `newfd` held it. */
  predicate Installed(s: State, survivor: Option<Handle>, oldfd: int, newfd: int, post: State)
    requires Valid(s) && Occupied(s, oldfd) && InRange(newfd)
  {
    var id := IdAt(s, oldfd);
    var c := AfterClose(s, newfd, survivor);
    && id in c.handles
    && |post.table| == OPEN_MAX
    && post.table[newfd] == Some(id)
    && (forall i | 0 <= i < OPEN_MAX && i != newfd :: post.table[i] == s.table[i])
    && post.handles.Keys == c.handles.Keys
    && post.handles[id] == c.handles[id].(refCount := c.handles[id].refCount + 1)
    && (forall k | k in c.handles && k != id :: post.handles[k] == c.handles[k])
    && (forall k | k in s.handles && k != id && !(Occupied(s, newfd) && k == IdAt(s, newfd)) ::
          k in post.handles && post.handles[k] == s.handles[k])
  }

  /** sys_dup2; `survivor` is what file_close left of the handle slot `newfd`
      held (None: destroyed), used only when that slot was occupied. */
  function SysDup2(s: State, oldfd: int, newfd: int, survivor: Option<Handle>): (o: Outcome)
    requires Valid(s)
    ensures !InRange(oldfd) || !InRange(newfd) || !Occupied(s, oldfd) ==> o == Returned(Err(EBADF), s)
    ensures Occupied(s, oldfd) && InRange(newfd) ==>
              var id := IdAt(s, oldfd);
              var c := AfterClose(s, newfd, survivor);
              && (o.UseAfterFree? <==> id !in c.handles)
              && (o.Blocked? <==> id in c.handles && c.handles[id].lockHeld)
              && (o.Returned? <==> id in c.handles && !c.handles[id].lockHeld)
              && (o.Returned? ==> o.reply == Ok(newfd) && Installed(s, survivor, oldfd, newfd, o.post))
  {
    if !InRange(oldfd) || !InRange(newfd) then Returned(Err(EBADF), s)
    else if s.table[oldfd].None? then Returned(Err(EBADF), s)
    else
      var id := s.table[oldfd].value;
      var c := AfterClose(s, newfd, survivor);
      var installed := c.(table := c.table[newfd := Some(id)]);
      if id !in installed.handles then UseAfterFree
      else
        var h := installed.handles[id];
        if h.lockHeld then Blocked(installed)
        else Returned(Ok(newfd), installed.(handles := installed.handles[id := h.(refCount := h.refCount + 1)]))
  }

  /** sys_chdir, sys___getcwd, sys_fstat and sys_getdirentry ignore their
      arguments and report EUNIMP. */
  function SysChdir(s: State): (o: Outcome) {
    Returned(Err(EUNIMP), s)
  }

  function SysGetcwd(s: State, buflen: nat): (o: Outcome) {
    Returned(Err(EUNIMP), s)
  }

  function SysFstat(s: State, fd: int): (o: Outcome) {
    Returned(Err(EUNIMP), s)
  }

  function SysGetdirentry(s: State, fd: int, buflen: nat): (o: Outcome) {
    Returned(Err(EUNIMP), s)
  }
}

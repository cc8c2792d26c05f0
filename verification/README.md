# Descriptor-table state machine of the file system calls

This project models the per-process open-file layer of the kernel's file system
calls in `a3/src/kern/syscall/file_syscalls.c`: `sys_dup2`, `sys_read`,
`sys_write`, `sys_lseek`, and the stubs `sys_chdir`, `sys___getcwd`,
`sys_fstat` and `sys_getdirentry` that report `EUNIMP`.

The state is a table of `__OPEN_MAX` slots. Each slot is empty or names a file
handle. Beside it sits a map from handle id to the handle's record: whether it
has a vnode, its position `cur_po`, its `ref_count`, and whether its `flock` is
held. Two slots that name one id share a handle, as after `dup2`. The lock is
only a flag. Every system call is a pure function from a state, its arguments
and what the vnode layer reported to an outcome. An outcome is one of four:

- the call returns `Ok(retval)` (it returned 0) or `Err(errno)`, together with
  the state it leaves;
- the call is `Blocked` in `lock_acquire` on a lock that an earlier call left
  held, so it never completes;
- the call hits `UseAfterFree`: `dup2` touches a handle that its own close step
  destroyed;
- the call hits `NullVnode`: `lseek` with `SEEK_END` hands a handle's missing
  vnode to `VOP_STAT`.

`VOP_READ`, `VOP_WRITE` and `VOP_STAT` are parameters. A transfer reports an
error or the residual count `resid`; a stat reports an error or `st_size`.
`file_close`, called by `dup2`, is an opaque transition. The parameter
`survivor` gives what is left of the handle slot `newfd` held: a record, or
nothing when the close destroyed it. Where a lemma needs more, it assumes the
close follows the release rule: drop one reference and destroy the handle
at zero (`FileTable.Release`).

Modules:

- `Errors` (errors.dfy): error numbers and `Result`.
- `Vop` (vop.dfy): what the vnode operations report.
- `FileTable` (file_table.dfy): the state, the reference-count invariant
  `RefCountsCover`, the opaque `FileClose`, and the release rule.
- `FileSyscalls` (file_syscalls.dfy): the calls as written.
- `SyscallProperties` (syscall_properties.dfy): lemmas that link the calls to
  the invariants they keep and to the calls that follow them.
- `Corrected` (corrected.dfy): read, write and lseek as evidently intended.
- `Session` (session.dfy): sequences of calls, as written or corrected.
- `Findings` (findings.dfy): each defect shown for all inputs and on a
  concrete sequence of calls.

The model follows the code as written, also where the code departs from what
it evidently intends:

- The comment at line 290 says the position advances by the number of bytes
  written, and the retval at lines 223 and 296 is the count actually moved.
  Yet lines 217 and 291 advance `cur_po` by the size requested.
- Every other path that takes `flock` releases it (lines 211, 226, 287, 339,
  346 and 360). The `sys_write` success path (lines 296-298) and the
  negative-position path of `sys_lseek` (lines 351-352) do not.
- `sys_read` and `sys_write` refuse a handle without a vnode with `ENODEV`
  (lines 195-198 and 272-275). `sys_lseek` makes no such check, and its
  `SEEK_END` case passes `fvnode` to `VOP_STAT` (line 337) regardless.
- POSIX specifies that `dup2(fd, fd)` returns `fd` without closing it. The
  code closes `newfd` first (lines 141-142) even when it equals `oldfd`.

The `Corrected` module gives the intended behaviour of the first three points
next to the code's own; the fourth is listed under "Left out".

## Model

| member | source | states |
|---|---|---|
| `FileSyscalls.SysDup2` | a3/src/kern/syscall/file_syscalls.c:125-153 | EBADF with nothing changed when either descriptor is outside [0, __OPEN_MAX) or slot oldfd is empty. Otherwise the call closes an occupied newfd first. Then slot newfd names oldfd's handle, whose ref_count is one more than after the close, and retval is newfd. No other slot changes, and no handle changes except that one and the one newfd held. The call blocks if the shared handle's lock is held, and is a use-after-free if the close destroyed that handle; in every other case it returns |
| `FileSyscalls.SysRead` | a3/src/kern/syscall/file_syscalls.c:173-229 | The checks come in a fixed order before the lock: out of range or empty slot gives EBADF, no vnode gives ENODEV, each with nothing changed. A VOP_READ error is returned unchanged with cur_po unchanged and the lock released. On success cur_po grows by the requested size, retval is size - resid, the lock is released, and nothing else changes |
| `FileSyscalls.SysWrite` | a3/src/kern/syscall/file_syscalls.c:250-299 | The same checks in the same order as read. A VOP_WRITE error is returned unchanged with the lock released. On success cur_po grows by len, retval is len - resid, and the handle's lock stays held |
| `FileSyscalls.SysLseek` | a3/src/kern/syscall/file_syscalls.c:305-365 | EBADF when out of range. ESPIPE for descriptors 0-2, occupied or not, before the empty-slot EBADF. The new position is offset (SEEK_SET), cur_po + offset (SEEK_CUR) or st_size + offset (SEEK_END). SEEK_END on a handle without a vnode faults (`NullVnode`), since the vnode is passed to VOP_STAT unchecked. A VOP_STAT error passes through, and any other whence is EINVAL; both release the lock and leave cur_po unchanged. A negative position is EINVAL with cur_po unchanged and the lock held. Otherwise cur_po and retval are the new position and the lock is released |
| `FileSyscalls.IoTarget` | a3/src/kern/syscall/file_syscalls.c:183-198 | Read and write get past their checks exactly when the slot is in range, occupied and has a vnode. The failures are EBADF for out of range or empty, and ENODEV for no vnode |
| `FileSyscalls.SeekTarget` | a3/src/kern/syscall/file_syscalls.c:313-326 | lseek gets past its checks exactly when the slot is occupied and is not 0-2. The failures are EBADF out of range, ESPIPE for 0-2, then EBADF for empty |
| `FileSyscalls.AfterClose` | a3/src/kern/syscall/file_syscalls.c:140-143 | After dup2's close step slot newfd is empty whether or not it was occupied, and no other slot changes. The only handle touched is the one slot newfd held, which becomes the survivor or is destroyed. When slot newfd was empty the state is untouched: there is no close |
| `FileTable.FileClose` | a3/src/kern/syscall/file_syscalls.c:141-142 | The close of slot fd touches only that slot, which ends empty, and the handle it held, which becomes the survivor or is destroyed. Every other slot and handle is unchanged |
| `FileTable.CloseKeepsCover` | a3/src/kern/syscall/file_syscalls.c:141-142 | A close that follows the release rule keeps every live handle's ref_count at least 1 and at least its number of slots. It destroys a handle only when no slot still names it |
| `FileTable.InstallKeepsCover` | a3/src/kern/syscall/file_syscalls.c:145-149 | Installing a handle in an empty slot while incrementing its ref_count keeps the reference-count invariant |
| `SyscallProperties.CloseByDesignKeepsCover` | a3/src/kern/syscall/file_syscalls.c:140-143 | The close step of dup2, when it follows the release rule, keeps the reference-count invariant, keeps every lock free if none was held, and leaves slot newfd empty for the install |
| `SyscallProperties.Dup2KeepsCover` | a3/src/kern/syscall/file_syscalls.c:140-152 | Suppose the close follows the release rule. Then dup2 keeps the reference-count invariant, and keeps every lock free if none was held. With distinct descriptors it never touches a destroyed handle, and with no lock held it then always returns |
| `SyscallProperties.Dup2SharesHandle` | a3/src/kern/syscall/file_syscalls.c:145-152 | After dup2 of distinct descriptors both slots name oldfd's handle, with its position and vnode |
| `SyscallProperties.ReadThroughDuplicateMovesOriginal` | a3/src/kern/syscall/file_syscalls.c:145-217 | After dup2, a successful read through newfd moves the position seen through oldfd by the size read: the offset is shared |
| `SyscallProperties.CloseOriginalKeepsDuplicate` | a3/src/kern/syscall/file_syscalls.c:141-149 | Closing oldfd after dup2 leaves newfd's handle alive, with the same position and one reference fewer. Here `FileClose` with the release rule stands for `close(oldfd)`, including the emptying of slot oldfd; both close steps are assumed to follow the release rule |
| `SyscallProperties.IoCallsKeepCover` | a3/src/kern/syscall/file_syscalls.c:173-365 | Read, write and lseek never change the table or a ref_count, so they keep the reference-count invariant |
| `SyscallProperties.ReadReleasesLock` | a3/src/kern/syscall/file_syscalls.c:200-228 | Started with no lock held, read always returns and leaves no lock held |
| `SyscallProperties.TransferCountBounded` | a3/src/kern/syscall/file_syscalls.c:219-223 | If the storage layer leaves at most the request over, the count read or written is between 0 and the request |
| `SyscallProperties.LseekCurZeroKeepsOffset` | a3/src/kern/syscall/file_syscalls.c:333-364 | lseek(fd, 0, SEEK_CUR) returns cur_po and leaves the state exactly as it was |
| `SyscallProperties.LseekSetThenCur` | a3/src/kern/syscall/file_syscalls.c:330-364 | After lseek(fd, p, SEEK_SET) with p >= 0, lseek(fd, 0, SEEK_CUR) returns p and changes nothing |
| `SyscallProperties.LseekFromEnd` | a3/src/kern/syscall/file_syscalls.c:336-353 | SEEK_END with offset -k on size S gives S - k when k <= S. When k > S it gives EINVAL with cur_po unchanged. On a handle without a vnode it faults before either |
| `SyscallProperties.StubsReportUnimplemented` | a3/src/kern/syscall/file_syscalls.c:374-420 | chdir, __getcwd, fstat and getdirentry report EUNIMP and change nothing |
| `Corrected.ReadFixed` | a3/src/kern/syscall/file_syscalls.c:215-228 | The same as sys_read on every path except success. On success cur_po grows by the count returned, size - resid. Started with no lock held it returns and leaves none held |
| `Corrected.WriteFixed` | a3/src/kern/syscall/file_syscalls.c:290-298 | The same as sys_write on every path except success. On success cur_po grows by the count written and the lock is released |
| `Corrected.LseekFixed` | a3/src/kern/syscall/file_syscalls.c:336-353 | The same as sys_lseek except in two cases. A negative position gives EINVAL with the state unchanged and the lock released. SEEK_END on a handle without a vnode gives ENODEV with the state unchanged. Started with no lock held it returns and leaves none held |
| `Corrected.FixedCallsKeepCover` | a3/src/kern/syscall/file_syscalls.c:173-365 | The corrected read, write and lseek keep the reference-count invariant |
| `Corrected.FixedAdvanceIsCount` | a3/src/kern/syscall/file_syscalls.c:217-223 | After a corrected successful transfer the position has moved by exactly the count returned. With nothing left over the corrected read equals sys_read |
| `Session.FixedStepKeepsLocksFree` | a3/src/kern/syscall/file_syscalls.c:125-365 | With no lock held, no corrected call (read, write, lseek, or dup2 with a close that follows the release rule) blocks, and none leaves a lock held |
| `Session.FixedRunsNeverHang` | a3/src/kern/syscall/file_syscalls.c:125-365 | Start with no lock held and take any sequence of corrected calls and any storage-layer reports. The sequence never blocks on a lock and ends with no lock held |
| `Findings.ShortTransferOvershoots` | a3/src/kern/syscall/file_syscalls.c:290-296 | As written, after a read or write that left resid > 0 bytes over, cur_po lies resid bytes past the last byte moved. The corrected read differs |
| `Findings.WriteLeavesLockHeld` | a3/src/kern/syscall/file_syscalls.c:277-298 | As written, a successful write leaves its handle locked, so the next read or write on that descriptor blocks. The corrected write leaves it free |
| `Findings.NegativeSeekLeavesLockHeld` | a3/src/kern/syscall/file_syscalls.c:328-353 | As written, an lseek to a negative position leaves the lock held, so the next lseek on that descriptor blocks. The corrected lseek changes nothing |
| `Findings.HelloScenarioRuns` | a3/src/kern/syscall/file_syscalls.c:277-298 | write(3, "hello", 5), lseek(3, 0, SEEK_SET), read(3, buf, 5): as written the lseek blocks; corrected the answers are 5, 0, 5 and the position ends at 5 |
| `Findings.NegativeSeekScenarioRuns` | a3/src/kern/syscall/file_syscalls.c:350-353 | lseek(3, -1, SEEK_SET), lseek(3, 0, SEEK_CUR): as written the second blocks; corrected the answers are EINVAL, 0 and the table is unchanged |
| `Findings.SeekEndWithoutVnodeFaults` | a3/src/kern/syscall/file_syscalls.c:336-337 | As written, SEEK_END on a handle without a vnode faults whatever VOP_STAT would report, where read and write answer ENODEV for that handle. The corrected lseek answers ENODEV too |
| `Findings.NoVnodeSeekScenarioRuns` | a3/src/kern/syscall/file_syscalls.c:336-337 | lseek(3, 0, SEEK_END) on a handle without a vnode: as written the run faults at that call; corrected it answers ENODEV and the table is unchanged |
| `Findings.ShortReadScenarioRuns` | a3/src/kern/syscall/file_syscalls.c:208-223 | A read of 10 bytes that moves 6, then lseek(3, 0, SEEK_CUR): as written the position reported is 10; corrected it is 6 |

## Left out

- `sys_open` (lines 89-109) is left out. It copies in a path with kmalloc/copyinstr and hands it to file_open, which is not part of this model.
- `sys_close` (lines 116-119) is left out. It is a one-line call of file_close, which is not part of this model; only file_close's assumed effect inside dup2 appears.
- `mk_useruio` and the uio/iovec setup (lines 67-80) are left out. This is address-space plumbing, reduced to the residual count the vnode layer reports.
- `dumb_consoleIO_bootstrap` and `cons_vnode` (lines 30-59) are left out. This is bootstrap console I/O through vfs_open and kprintf.
- The internals of `VOP_READ`, `VOP_WRITE` and `VOP_STAT` are foreign calls and become parameters.
- `file_close` and `file_open` are foreign calls. file_close is an opaque transition whose survivor is a parameter. The model also lets it empty the slot it closes. Inside dup2 this cannot be observed, because dup2 overwrites that slot at once. `CloseOriginalKeepsDuplicate` uses `FileClose` to stand for `close(oldfd)`, and there the emptied slot is part of what is assumed.
- `vn_stat` in `sys_lseek` is an uninitialised pointer (lines 308 and 337). SEEK_END takes st_size from the stat parameter, so the model does not cover the memory this pointer would write.
- Real locking and thread interleavings are left out. Only a per-handle "lock held" flag remains, and a lock_acquire on a held flag becomes `Blocked`.
- The truncation of the 64-bit `cur_po` into the `int offset` local (lines 179, 203, 256 and 279) is left out. So are the unsigned `size_t` arithmetic of `size - resid` and its conversion to `int`. All integers are unbounded.
- Numeric error values and the value of `__OPEN_MAX` come from kern/errno.h and kern/limits.h, which are not part of this model. Errors are named, not numbered. `OPEN_MAX` is 128, the usual value of `__OPEN_MAX` in this kernel.
- User pointers (`buf`, `path`, `statptr`) are left out. No call here inspects them.
- FileSyscalls.SysDup2: when `oldfd == newfd` the handle being duplicated is first passed to file_close. The model states nothing about whether it survives, because that depends on file_close; the no-destroyed-handle clause of `Dup2KeepsCover` covers distinct descriptors only.
- SyscallProperties.LseekCurZeroKeepsOffset: assumes `cur_po >= 0`. No call as written produces a negative position. The corrected read and write do not either as long as the vnode layer reports `resid` no larger than the request, which the uio it is given ensures but `IoDone` does not bound. For a negative position the source returns EINVAL.
- FileTable.Release: the assumed close never waits on the handle's `flock`. A `file_close` that takes `flock` to drop its reference, as dup2 does to add one (lines 147-149), would block in dup2 on a handle that an earlier write left locked; the model lets that dup2 complete.

## Findings

| source | as written | input that shows it | evidently intended | confidence | as-written member | corrected member |
|---|---|---|---|---|---|---|
| a3/src/kern/syscall/file_syscalls.c:217 | `cur_po` grows by the requested size after a successful VOP_READ | read(3, buf, 10) at position 0 where VOP_READ leaves 4 bytes over: retval 6, position 10 | grow by the 6 bytes read, so the next read starts after them | medium (the comment at line 216 shows doubt); not executed | `Findings.ShortReadScenarioRuns` | `Corrected.ReadFixed` |
| a3/src/kern/syscall/file_syscalls.c:290-291 | `cur_po` grows by `len`, although the comment says by the bytes written | write of 10 bytes at position 0 where VOP_WRITE leaves 4 over: retval 6, position 10 | grow by the 6 bytes written | high (the comment states it); not executed | `Findings.ShortTransferOvershoots` | `Corrected.WriteFixed` |
| a3/src/kern/syscall/file_syscalls.c:296-298 | the success path returns without releasing `flock` | write(3, "hello", 5) then lseek(3, 0, SEEK_SET): the lseek waits forever in lock_acquire | release `flock` before returning, as sys_read does at lines 225-226 | high; not executed | `Findings.HelloScenarioRuns` | `Corrected.WriteFixed` |
| a3/src/kern/syscall/file_syscalls.c:336-337 | SEEK_END passes `fvnode` to `VOP_STAT` without checking it, unlike read and write | lseek(3, 0, SEEK_END) on a descriptor whose handle has no vnode: a null vnode reaches VOP_STAT | ENODEV, as read and write answer at lines 195-198 and 272-275 | medium (depends on file_open, not part of this model, ever leaving `fvnode` null, which read and write guard against); not executed | `Findings.NoVnodeSeekScenarioRuns` | `Corrected.LseekFixed` |
| a3/src/kern/syscall/file_syscalls.c:351-352 | a negative position returns EINVAL without releasing `flock` | lseek(3, -1, SEEK_SET) then lseek(3, 0, SEEK_CUR): the second waits forever | release `flock` before returning EINVAL, as the whence error path does at line 346 | high; not executed | `Findings.NegativeSeekScenarioRuns` | `Corrected.LseekFixed` |

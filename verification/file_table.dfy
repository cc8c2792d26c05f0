/** The per-process open-file table and the file handles it points at.

    A table is a fixed row of OPEN_MAX slots, each empty or naming a handle.
    Handles live in a map from handle id to their record; two slots naming the
    same id share one handle (and so one offset), as after dup2. The handle's
    lock is kept only as a flag recording whether some call left it held. */
module FileTable {

  /** __OPEN_MAX, the number of descriptor slots per table. */
  const OPEN_MAX: nat := 128

  type HandleId = nat

  datatype Option<+T> = None | Some(value: T)

  /** A file handle: whether it has a vnode, its current position (cur_po),
      how many slots refer to it (ref_count), and whether its flock is held. */
  datatype Handle = Handle(vnodePresent: bool, curPo: int, refCount: nat, lockHeld: bool)

  datatype State = State(table: seq<Option<HandleId>>, handles: map<HandleId, Handle>)

  predicate InRange(fd: int) {
    0 <= fd < OPEN_MAX
  }

  /** The table has OPEN_MAX slots and no slot names a handle that does not exist. */
  predicate Valid(s: State) {
    && |s.table| == OPEN_MAX
    && forall fd | 0 <= fd < |s.table| :: s.table[fd].Some? ==> s.table[fd].value in s.handles
  }

  predicate Occupied(s: State, fd: int)
    requires Valid(s)
  {
    InRange(fd) && s.table[fd].Some?
  }

  function IdAt(s: State, fd: int): HandleId
    requires Valid(s) && Occupied(s, fd)
  {
    s.table[fd].value
  }

  /** The handle record slot `fd` refers to. */
  function At(s: State, fd: int): Handle
    requires Valid(s) && Occupied(s, fd)
  {
    s.handles[IdAt(s, fd)]
  }

  /** Replace the record of an existing handle; the table is untouched. */
  function Put(s: State, id: HandleId, h: Handle): (r: State)
    requires id in s.handles
    ensures r.table == s.table && r.handles.Keys == s.handles.Keys
    ensures Valid(s) ==> Valid(r)
  {
    s.(handles := s.handles[id := h])
  }

  /** No handle's flock is held. */
  predicate LocksFree(s: State) {
    forall id | id in s.handles :: !s.handles[id].lockHeld
  }

  /** The number of slots of `t` that refer to handle `id`. */
  function CountRefs(t: seq<Option<HandleId>>, id: HandleId): (n: nat)
    ensures n <= |t|
    decreases |t|
  {
    if |t| == 0 then 0
    else CountRefs(t[..|t| - 1], id) + (if t[|t| - 1] == Some(id) then 1 else 0)
  }

  /** The reference-count invariant: every live handle's ref_count is at least
      one and at least the number of slots of this table that refer to it
      (other processes' tables may hold it too, hence "at least"). */
  predicate RefCountsCover(s: State) {
    && Valid(s)
    && forall id | id in s.handles ::
         s.handles[id].refCount >= 1 && s.handles[id].refCount >= CountRefs(s.table, id)
  }

  /** file_close(fd), whose code is not part of this model, as an opaque
      transition. Its assumed effect is on slot `fd` and on the handle that slot
      held only: the slot is emptied and that handle becomes `survivor`, or is
      destroyed when `survivor` is None. */
  function FileClose(s: State, fd: int, survivor: Option<Handle>): (r: State)
    requires Valid(s) && Occupied(s, fd)
    ensures |r.table| == OPEN_MAX && r.table[fd] == None
    ensures forall i | 0 <= i < OPEN_MAX && i != fd :: r.table[i] == s.table[i]
    ensures IdAt(s, fd) in r.handles <==> survivor.Some?
    ensures survivor.Some? ==> r.handles[IdAt(s, fd)] == survivor.value
    ensures forall id | id in s.handles && id != IdAt(s, fd) :: id in r.handles && r.handles[id] == s.handles[id]
    ensures r.handles.Keys <= s.handles.Keys
  {
    var id := IdAt(s, fd);
    State(s.table[fd := None],
          if survivor.Some? then s.handles[id := survivor.value] else s.handles - {id})
  }

  /** The release rule a close follows by design: drop one reference, and
      destroy the handle when that was the last one. */
  function Release(h: Handle): (r: Option<Handle>)
    ensures r.None? <==> h.refCount <= 1
    ensures r.Some? ==> r.value == h.(refCount := h.refCount - 1)
  {
    if h.refCount <= 1 then None else Some(h.(refCount := h.refCount - 1))
  }

  /** What file_close leaves of the handle in slot `fd` when it follows the
      release rule (nothing to close when the slot is empty). */
  function CloseByDesign(s: State, fd: int): (r: Option<Handle>)
    requires Valid(s) && InRange(fd)
  {
    if s.table[fd].Some? then Release(At(s, fd)) else None
  }

  /** Replacing slot `i` changes the count of `id` by what left and what came. */
  lemma {:induction false} CountRefsUpdate(t: seq<Option<HandleId>>, i: int, v: Option<HandleId>, id: HandleId)
    requires 0 <= i < |t|
    ensures CountRefs(t[i := v], id) + (if t[i] == Some(id) then 1 else 0)
         == CountRefs(t, id) + (if v == Some(id) then 1 else 0)
    decreases |t|
  {
    var u := t[i := v];
    var n := |t| - 1;
    if i == n {
      assert u[..n] == t[..n];
    } else {
      assert u[..n] == t[..n][i := v];
      CountRefsUpdate(t[..n], i, v, id);
    }
  }

  /** A handle has no references exactly when no slot names it. */
  lemma {:induction false} CountRefsZero(t: seq<Option<HandleId>>, id: HandleId)
    ensures CountRefs(t, id) == 0 <==> forall j | 0 <= j < |t| :: t[j] != Some(id)
    decreases |t|
  {
    if |t| > 0 {
      var n := |t| - 1;
      CountRefsZero(t[..n], id);
      assert forall j | 0 <= j < n :: t[..n][j] == t[j];
    }
  }

  /** A close that follows the release rule keeps the reference-count invariant:
      a handle is destroyed only when slot `fd` was its last reference. */
  lemma CloseKeepsCover(s: State, fd: int)
    requires RefCountsCover(s) && Occupied(s, fd)
    ensures RefCountsCover(FileClose(s, fd, Release(At(s, fd))))
  {
    var h := IdAt(s, fd);
    var c := FileClose(s, fd, Release(At(s, fd)));
    assert c.table == s.table[fd := None];
    forall k | k in c.handles
      ensures c.handles[k].refCount >= 1 && c.handles[k].refCount >= CountRefs(c.table, k)
    {
      CountRefsUpdate(s.table, fd, None, k);
    }
    if Release(At(s, fd)).None? {
      CountRefsZero(s.table, h);
      CountRefsUpdate(s.table, fd, None, h);
      CountRefsZero(c.table, h);
    }
  }

  /** Pointing an empty slot at a live handle while adding one to its ref_count
      keeps the reference-count invariant. */
  lemma InstallKeepsCover(c: State, fd: int, id: HandleId)
    requires RefCountsCover(c) && InRange(fd) && c.table[fd] == None && id in c.handles
    ensures RefCountsCover(State(c.table[fd := Some(id)],
                                 c.handles[id := c.handles[id].(refCount := c.handles[id].refCount + 1)]))
  {
    forall k | k in c.handles
      ensures CountRefs(c.table[fd := Some(id)], k) == CountRefs(c.table, k) + (if k == id then 1 else 0)
    {
      CountRefsUpdate(c.table, fd, Some(id), k);
    }
  }
}

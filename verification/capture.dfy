/** The kernel half of path capture: src/filetrace.bpf.c and src/include/filetrace.h. */
module Capture {
  import opened Text

  const MAX_DEPTH: nat := 4

  /** Room for text in a directory slot and in the file name, one byte of each being kept for the terminator. */
  const DIR_ROOM: nat := 15
  const FILE_ROOM: nat := 63

  /** A directory entry with its chain of parents; the root of the file system is its own parent and is named "/". */
  datatype Dentry = Root | Node(parent: Dentry, name: bytes) {
    function Parent(): Dentry {
      if Root? then this else parent
    }

    function Name(): bytes {
      if Root? then [SLASH] else name
    }
  }

  /** File names are non-empty, contain neither '/' nor NUL, and are neither "." nor "..". */
  predicate ProperName(name: bytes) {
    name != [] && !OnlyDots(name) && SLASH !in name && NUL !in name
  }

  /** "." or "..". */
  predicate OnlyDots(name: bytes) {
    (|name| == 1 && name[0] == DOT) || (|name| == 2 && name[0] == DOT && name[1] == DOT)
  }

  predicate Proper(d: Dentry) {
    d.Node? ==> ProperName(d.name) && Proper(d.parent)
  }

  datatype Syscall = Unlinkat | CopyFileRange | Rename | Renameat | Renameat2 | Write | Openat | Dup2 | Unknown

  /** The calling task as the handlers see it; its real parent's tgid may fail to read. */
  datatype Task = Task(tgid: nat, parent: Option<nat>, comm: bytes, uid: nat, gid: nat)

  /** What bpf_probe_read leaves of a parent's tgid: zero where it cannot read. */
  function Ppid(task: Task): nat {
    if task.parent.Some? then task.parent.value else 0
  }

  /** An open file; the inode or the dentry may fail to read. */
  datatype File = File(ino: Option<nat>, regular: bool, dentry: Option<Dentry>)

  /** struct event by value, as user space receives it. */
  datatype Event = Event(pid: nat, ppid: nat, cmd: bytes, ino: nat, filename: bytes,
                         dir1: bytes, dir2: bytes, dir3: bytes, dir4: bytes,
                         flag: Syscall, uid: nat, gid: nat)

  /** bpf_probe_read_str into a slot with room for `room` bytes of text. */
  function ReadStr(room: nat, src: bytes): bytes {
    Take(src, room)
  }

  // ------------------------------------------------------------------ what the walks leave in the slots

  /** The names read from the first `n` parents of `d`, nearest first; the root ends the walk. */
  function ParentWalk(d: Dentry, n: nat): (w: seq<bytes>)
    ensures |w| <= n
  {
    if n == 0 || d.Root? then [] else [ReadStr(DIR_ROOM, d.parent.Name())] + ParentWalk(d.parent, n - 1)
  }

  /** The names read from `d` itself and then its parents, `n` in all at most. */
  function ChainWalk(d: Dentry, n: nat): (w: seq<bytes>)
    ensures |w| <= n
  {
    if n == 0 then []
    else [ReadStr(DIR_ROOM, d.Name())] + (if d.Root? then [] else ChainWalk(d.parent, n - 1))
  }

  /** The two walks agree: the parents of a file are the chain of its directory. */
  lemma {:induction false} WalksAgree(d: Dentry, n: nat)
    requires d.Node?
    ensures ParentWalk(d, n) == ChainWalk(d.parent, n)
  {
    if n == 0 || d.parent.Root? {
    } else {
      WalksAgree(d.parent, n - 1);
    }
  }

  lemma ChainIsSelfAndParents(d: Dentry, n: nat)
    requires n > 0
    ensures ChainWalk(d, n) == [ReadStr(DIR_ROOM, d.Name())] + ParentWalk(d, n - 1)
  {
    if d.Node? {
      WalksAgree(d, n - 1);
    }
  }

  function Filled(slots: seq<bytes>, w: seq<bytes>): seq<bytes>
    requires |w| <= |slots|
  {
    w + slots[|w|..]
  }

  lemma FilledStep(slots: seq<bytes>, w: seq<bytes>, name: bytes)
    requires |w| < |slots|
    ensures Filled(slots, w + [name]) == Filled(slots, w)[|w| := name]
  {
  }

  const BLANK: seq<bytes> := [[], [], [], []]

  /** The directory n levels above `d`, the root being above itself. */
  function Above(d: Dentry, n: nat): Dentry {
    if n == 0 then d else Above(d.Parent(), n - 1)
  }

  /** Slot k holds the k-th parent's name while there is one: the nearest comes first, the root is "/" and ends the walk. */
  lemma {:induction false} ParentWalkAt(d: Dentry, n: nat, k: nat)
    requires k < n
    ensures k < |ParentWalk(d, n)| <==> Above(d, k).Node?
    ensures k < |ParentWalk(d, n)| ==> ParentWalk(d, n)[k] == Take(Above(d, k + 1).Name(), 15)
  {
    if d.Root? {
      AboveRoot(k);
    } else if k == 0 {
      assert Above(d, 1) == Above(d.parent, 0);
    } else {
      ParentWalkAt(d.parent, n - 1, k - 1);
    }
  }

  lemma {:induction false} AboveRoot(n: nat)
    ensures Above(Root, n) == Root
  {
    if n == 0 {
    } else {
      AboveRoot(n - 1);
    }
  }

  function FileEvent(task: Task, ino: nat, d: Dentry, flag: Syscall): Event {
    var dirs := Filled(BLANK, ParentWalk(d, MAX_DEPTH));
    Event(task.tgid, Ppid(task), task.comm, ino, ReadStr(FILE_ROOM, d.Name()), dirs[0], dirs[1], dirs[2], dirs[3],
          flag, task.uid, task.gid)
  }

  function UnlinkEvent(task: Task, base: Option<Dentry>, pathname: bytes): Event {
    var filename := ReadStr(FILE_ROOM, pathname);
    var dirs :=
      if base.None? || (filename != [] && filename[0] == SLASH) then BLANK
      else Filled(BLANK, ChainWalk(base.value, MAX_DEPTH));
    Event(task.tgid, Ppid(task), task.comm, 0, filename, dirs[0], dirs[1], dirs[2], dirs[3], Unlinkat, 0, 0)
  }

  // ------------------------------------------------------------------ the handlers

  /** A zeroed record reserved in the ring buffer. */
  class RingEvent {
    var pid: nat
    var ppid: nat
    var cmd: bytes
    var ino: nat
    var filename: bytes
    var dir1: bytes
    var dir2: bytes
    var dir3: bytes
    var dir4: bytes
    var flag: Syscall
    var uid: nat
    var gid: nat

    constructor ()
      ensures Value() == Event(0, 0, [], 0, [], [], [], [], [], Unlinkat, 0, 0)
    {
      pid, ppid, cmd, ino, filename := 0, 0, [], 0, [];
      dir1, dir2, dir3, dir4 := [], [], [], [];
      flag, uid, gid := Unlinkat, 0, 0;
    }

    function Value(): Event
      reads this
    {
      Event(pid, ppid, cmd, ino, filename, dir1, dir2, dir3, dir4, flag, uid, gid)
    }

    function Dirs(): seq<bytes>
      reads this
    {
      [dir1, dir2, dir3, dir4]
    }
  }

  /** The i-th branch of the walks' if-chains. */
  method StoreDir(e: RingEvent, i: nat, text: bytes)
    requires i < 4
    modifies e`dir1, e`dir2, e`dir3, e`dir4
    ensures e.Dirs() == old(e.Dirs())[i := text]
  {
    if i == 0 {
      e.dir1 := text;
    } else if i == 1 {
      e.dir2 := text;
    } else if i == 2 {
      e.dir3 := text;
    } else if i == 3 {
      e.dir4 := text;
    }
  }

  /** Of the walk from `start`, `done` is behind and `n` parents of `d` at most are ahead. */
  ghost predicate ParentsLeft(start: Dentry, done: seq<bytes>, d: Dentry, n: nat) {
    ParentWalk(start, MAX_DEPTH) == done + ParentWalk(d, n)
  }

  lemma NextParent(start: Dentry, done: seq<bytes>, d: Dentry, n: nat)
    requires ParentsLeft(start, done, d, n) && n > 0 && d.Node?
    ensures ParentsLeft(start, done + [ReadStr(DIR_ROOM, d.parent.Name())], d.parent, n - 1)
  {
  }

  method FillParentDirs(e: RingEvent, start: Dentry)
    modifies e`dir1, e`dir2, e`dir3, e`dir4
    ensures e.Dirs() == Filled(old(e.Dirs()), ParentWalk(start, MAX_DEPTH))
  {
    var dentry := start;
    ghost var slots, done := e.Dirs(), [];
    for i := 0 to MAX_DEPTH
      invariant |done| == i
      invariant ParentsLeft(start, done, dentry, MAX_DEPTH - i)
      invariant e.Dirs() == Filled(slots, done)
    {
      var d_parent := dentry.Parent();
      if d_parent == dentry {
        break;
      }
      var text := ReadStr(DIR_ROOM, d_parent.Name());
      NextParent(start, done, dentry, MAX_DEPTH - i);
      FilledStep(slots, done, text);
      done := done + [text];
      StoreDir(e, i, text);
      dentry := d_parent;
    }
  }

  method FillDirChain(e: RingEvent, base: Option<Dentry>)
    modifies e`dir1, e`dir2, e`dir3, e`dir4
    ensures base.None? ==> e.Dirs() == old(e.Dirs())
    ensures base.Some? ==> e.Dirs() == Filled(old(e.Dirs()), ChainWalk(base.value, MAX_DEPTH))
  {
    if base.None? {
      return;
    }
    var dentry := base.value;
    ghost var slots := e.Dirs();
    StoreDir(e, 0, ReadStr(DIR_ROOM, dentry.Name()));
    ghost var done := [ReadStr(DIR_ROOM, dentry.Name())];
    ChainIsSelfAndParents(dentry, MAX_DEPTH);
    FilledStep(slots, [], done[0]);
    for i := 0 to MAX_DEPTH - 1
      invariant |done| == i + 1
      invariant ChainWalk(base.value, MAX_DEPTH) == done + ParentWalk(dentry, MAX_DEPTH - 1 - i)
      invariant e.Dirs() == Filled(slots, done)
    {
      var d_parent := dentry.Parent();
      if d_parent == dentry {
        break;
      }
      var text := ReadStr(DIR_ROOM, d_parent.Name());
      FilledStep(slots, done, text);
      done := done + [text];
      StoreDir(e, i + 1, text);
      dentry := d_parent;
    }
  }

  /** bpf_create_ringbuf: the tracer's own events are dropped, and the ring buffer may be full. */
  method CreateRingbuf(selfTgid: nat, current: nat, full: bool) returns (e: RingEvent?)
    ensures e == null <==> (selfTgid != 0 && current == selfTgid) || full
    ensures e != null ==> fresh(e) && e.Value() == Event(0, 0, [], 0, [], [], [], [], [], Unlinkat, 0, 0)
  {
    if selfTgid != 0 && current == selfTgid {
      return null;
    }
    if full {
      return null;
    }
    e := new RingEvent();
  }

  /** Who did what, as captured; a parent that cannot be read is 0. */
  predicate Tells(v: Event, task: Task, flag: Syscall) {
    && v.pid == task.tgid && v.cmd == task.comm && v.flag == flag
    && match task.parent case Some(ppid) => v.ppid == ppid case None => v.ppid == 0
  }

  function Slots(v: Event): (slots: seq<bytes>)
    ensures |slots| == 4
  {
    [v.dir1, v.dir2, v.dir3, v.dir4]
  }

  function SlotText(d: Dentry, k: nat): bytes {
    if Above(d, k).Node? then Take(Above(d, k + 1).Name(), 15) else []
  }

  /** Of the four slots, those the walk reached hold the parents' names, nearest first; the rest are empty. */
  ghost predicate SlotsTell(v: Event, d: Dentry) {
    forall k | 0 <= k < 4 :: Slots(v)[k] == SlotText(d, k)
  }

  lemma SlotsFilled(v: Event, d: Dentry)
    requires Slots(v) == Filled(BLANK, ParentWalk(d, MAX_DEPTH))
    ensures SlotsTell(v, d)
  {
    forall k | 0 <= k < 4 ensures Slots(v)[k] == SlotText(d, k) {
      ParentWalkAt(d, MAX_DEPTH, k);
      assert k >= |ParentWalk(d, MAX_DEPTH)| ==> Slots(v)[k] == BLANK[k];
    }
  }

  lemma FileEventTells(task: Task, ino: nat, d: Dentry, flag: Syscall)
    ensures var v := FileEvent(task, ino, d, flag);
            && Tells(v, task, flag) && SlotsTell(v, d)
            && v.ino == ino && v.uid == task.uid && v.gid == task.gid && v.filename == Take(d.Name(), 63)
  {
    var v := FileEvent(task, ino, d, flag);
    assert Slots(v) == Filled(BLANK, ParentWalk(d, MAX_DEPTH));
    SlotsFilled(v, d);
  }

  /** Of a removal the first slot holds the directory's own name, the others its parents' as before. */
  ghost predicate SlotsTellDirectory(v: Event, d: Dentry) {
    Slots(v)[0] == Take(d.Name(), 15) && forall k | 0 <= k < 3 :: Slots(v)[k + 1] == SlotText(d, k)
  }

  lemma DirectoryFilled(v: Event, d: Dentry)
    requires Slots(v) == Filled(BLANK, ChainWalk(d, MAX_DEPTH))
    ensures SlotsTellDirectory(v, d)
  {
    ChainIsSelfAndParents(d, MAX_DEPTH);
    forall k | 0 <= k < 3 ensures Slots(v)[k + 1] == SlotText(d, k) {
      ParentWalkAt(d, MAX_DEPTH - 1, k);
      assert k >= |ParentWalk(d, MAX_DEPTH - 1)| ==> Slots(v)[k + 1] == BLANK[k + 1];
    }
  }

  lemma UnlinkEventTells(task: Task, base: Option<Dentry>, pathname: bytes)
    ensures var v := UnlinkEvent(task, base, pathname);
            Tells(v, task, Unlinkat) && v.filename == Take(pathname, 63) && v.ino == v.uid == v.gid == 0
    ensures base.Some? && !(pathname != [] && pathname[0] == 0x2F) ==>
            SlotsTellDirectory(UnlinkEvent(task, base, pathname), base.value)
    ensures base.None? || (pathname != [] && pathname[0] == 0x2F) ==>
            Slots(UnlinkEvent(task, base, pathname)) == [[], [], [], []]
  {
    var v := UnlinkEvent(task, base, pathname);
    if base.Some? && !(pathname != [] && pathname[0] == 0x2F) {
      assert Slots(v) == Filled(BLANK, ChainWalk(base.value, MAX_DEPTH));
      DirectoryFilled(v, base.value);
    } else {
      assert Slots(v) == BLANK;
    }
  }

  /** create_file_event, the capture behind copy_file_range. */
  method CreateFileEvent(selfTgid: nat, full: bool, task: Task, file: Option<File>, flag: Syscall) returns (e: RingEvent?)
    ensures e != null <==>
            && !(selfTgid != 0 && task.tgid == selfTgid) && !full
            && file.Some? && file.value.ino.Some? && file.value.regular && file.value.dentry.Some?
    ensures e != null ==> fresh(e) && e.Value() == FileEvent(task, file.value.ino.value, file.value.dentry.value, flag)
  {
    e := CreateRingbuf(selfTgid, task.tgid, full);
    if e == null {
      return;
    }
    e.flag := flag;
    e.uid := task.uid;
    e.gid := task.gid;
    e.pid := task.tgid;
    e.cmd := task.comm;
    if task.parent.Some? {
      e.ppid := task.parent.value;
    }
    if file.None? || file.value.ino.None? {
      return null;
    }
    e.ino := file.value.ino.value;
    if !file.value.regular {
      return null;
    }
    if file.value.dentry.None? {
      return null;
    }
    var dentry := file.value.dentry.value;
    assert e.Dirs() == BLANK;
    FillParentDirs(e, dentry);
    e.filename := ReadStr(FILE_ROOM, dentry.Name());
    FileEventIs(e.Value(), task, file.value.ino.value, dentry, flag);
  }

  lemma DirsOf(e: RingEvent)
    ensures e.dir1 == e.Dirs()[0] && e.dir2 == e.Dirs()[1] && e.dir3 == e.Dirs()[2] && e.dir4 == e.Dirs()[3]
  {
  }

  lemma FileEventIs(v: Event, task: Task, ino: nat, d: Dentry, flag: Syscall)
    requires v.pid == task.tgid && v.ppid == Ppid(task) && v.cmd == task.comm && v.uid == task.uid && v.gid == task.gid
    requires v.ino == ino && v.flag == flag && v.filename == ReadStr(FILE_ROOM, d.Name())
    requires [v.dir1, v.dir2, v.dir3, v.dir4] == Filled(BLANK, ParentWalk(d, MAX_DEPTH))
    ensures v == FileEvent(task, ino, d, flag)
  {
    assert v.dir1 == [v.dir1, v.dir2, v.dir3, v.dir4][0] && v.dir2 == [v.dir1, v.dir2, v.dir3, v.dir4][1];
    assert v.dir3 == [v.dir1, v.dir2, v.dir3, v.dir4][2] && v.dir4 == [v.dir1, v.dir2, v.dir3, v.dir4][3];
  }

  /** trace_write, attached to the permission check of the virtual file system. */
  method TraceWrite(selfTgid: nat, full: bool, task: Task, ino: nat, regular: bool, dentry: Dentry, mayWrite: bool)
    returns (e: RingEvent?)
    ensures e != null <==> mayWrite && regular && !(selfTgid != 0 && task.tgid == selfTgid) && !full
    ensures e != null ==> fresh(e) && e.Value() == FileEvent(task, ino, dentry, Write)
  {
    if !mayWrite {
      return null;
    }
    e := CreateRingbuf(selfTgid, task.tgid, full);
    if e == null {
      return;
    }
    assert e.Dirs() == BLANK;
    e.flag, e.uid, e.gid := Write, task.uid, task.gid;
    e.pid, e.cmd, e.ppid := task.tgid, task.comm, Ppid(task);
    if !regular {
      return null;
    }
    e.ino := ino;
    FillParentDirs(e, dentry);
    e.filename := ReadStr(FILE_ROOM, dentry.Name());
    FileEventIs(e.Value(), task, ino, dentry, Write);
  }

  /** enter_unlinkat; `base` is what resolve_base_dentry finds for the directory descriptor. */
  method EnterUnlinkat(selfTgid: nat, full: bool, task: Task, base: Option<Dentry>, pathname: bytes)
    returns (e: RingEvent?)
    ensures e != null <==> !(selfTgid != 0 && task.tgid == selfTgid) && !full
    ensures e != null ==> fresh(e) && e.Value() == UnlinkEvent(task, base, pathname)
  {
    e := CreateRingbuf(selfTgid, task.tgid, full);
    if e == null {
      return;
    }
    e.flag := Unlinkat;
    e.pid := task.tgid;
    e.cmd := task.comm;
    e.ppid := Ppid(task);
    e.filename := ReadStr(FILE_ROOM, pathname);
    if e.filename == [] || e.filename[0] != SLASH {
      FillDirChain(e, base);
    }
    DirsOf(e);
  }
}

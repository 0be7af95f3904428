/** Which events are reported, and when that decision is exact: src/post.cpp, is_valid_event and compare_config_file. */
module Filter {
  import opened Text
  import opened Capture
  import opened Paths
  import opened SkipList

  datatype Settings = Settings(confList: seq<bytes>, skip: seq<bytes>, verbose: bool, monitor: bytes)

  predicate Listed(st: Settings, path: bytes) {
    (st.verbose && st.monitor == path) || (path != [] && path in st.confList)
  }

  method CompareConfigFile(st: Settings, config: bytes) returns (found: bool)
    ensures found <==> Listed(st, config)
  {
    if st.verbose {
      if st.monitor == config {
        return true;
      }
    }
    if st.confList == [] || config == [] {
      return false;
    }
    for i := 0 to |st.confList|
      invariant forall j | 0 <= j < i :: st.confList[j] != config
    {
      if st.confList[i] == config {
        return true;
      }
    }
    return false;
  }

  predicate ValidFilename(name: bytes) {
    name != [] && name[0] != DOT
  }

  /** The string an event is matched by; None for system calls that are not reported. */
  function Matched(e: Event): Option<bytes> {
    match e.flag
    case Unlinkat => Some(FullPath(e))
    case Rename => Some(e.filename)
    case Renameat => Some(e.filename)
    case Renameat2 => Some(e.filename)
    case CopyFileRange => Some(FullPath(e))
    case Write => Some(FullPath(e))
    case _ => None
  }

  ghost predicate Accepts(st: Settings, e: Event) {
    && ValidFilename(e.filename)
    && e.pid != 0
    && !Skipped(st.skip, e.cmd)
    && Matched(e).Some?
    && Listed(st, Matched(e).value)
  }

  /** What an event must have whatever its system call: a visible name, a process, and not one that is skipped. */
  ghost predicate Eligible(st: Settings, e: Event) {
    e.filename != [] && e.filename[0] != 0x2E && e.pid != 0 && !Skipped(st.skip, e.cmd)
  }

  /** Listed, or in verbose mode the monitored path. */
  ghost predicate Watched(st: Settings, path: bytes) {
    if st.verbose && path == st.monitor then true else path != [] && path in st.confList
  }

  method IsValidEvent(st: Settings, e: Event) returns (valid: bool)
    ensures valid <==> Accepts(st, e)
    ensures e.flag == Rename || e.flag == Renameat || e.flag == Renameat2 ==>
              (valid <==> Eligible(st, e) && Watched(st, e.filename))
    ensures e.flag == Write || e.flag == CopyFileRange || e.flag == Unlinkat ==>
              (valid <==> Eligible(st, e) && Watched(st, FullPath(e)))
    ensures e.flag == Openat || e.flag == Dup2 || e.flag == Unknown ==> !valid
  {
    if !ValidFilename(e.filename) {
      return false;
    }
    if e.pid == 0 {
      return false;
    }
    var skipped := MatchProcessName(st.skip, e.cmd);
    if skipped {
      return false;
    }
    match e.flag {
      case Unlinkat =>
        var fullpath := GetFullPath(e);
        valid := CompareConfigFile(st, fullpath);
      case Rename =>
        valid := CompareConfigFile(st, e.filename);
      case Renameat =>
        valid := CompareConfigFile(st, e.filename);
      case Renameat2 =>
        valid := CompareConfigFile(st, e.filename);
      case CopyFileRange =>
        var fullpath := GetFullPath(e);
        valid := CompareConfigFile(st, fullpath);
      case Write =>
        var fullpath := GetFullPath(e);
        valid := CompareConfigFile(st, fullpath);
      case _ =>
        valid := false;
    }
  }

  /** A rename is decided by the new name as it was captured, whatever the slots hold. */
  lemma RenameDecided(st: Settings, e: Event)
    requires !st.verbose && (e.flag == Rename || e.flag == Renameat || e.flag == Renameat2)
    ensures Accepts(st, e) <==>
            && e.pid != 0 && !Skipped(st.skip, e.cmd)
            && e.filename != [] && e.filename[0] != 0x2E && e.filename in st.confList
  {
  }

  /** The remaining system calls are never reported. */
  lemma OthersRejected(st: Settings, e: Event)
    requires e.flag == Openat || e.flag == Dup2 || e.flag == Unknown
    ensures !Accepts(st, e)
  {
  }

  // ------------------------------------------------------------------ what a rebuilt path tells

  /** No name the capture reads is cut: the four nearest directories and the file name fit their slots. */
  predicate NamesFit(cs: seq<bytes>)
    requires cs != []
  {
    && |cs[|cs| - 1]| <= FILE_ROOM
    && forall i | 0 <= i < |cs| - 1 && |cs| - 1 - MAX_DEPTH <= i :: |cs[i]| <= DIR_ROOM
  }

  /** Every name leaves room in its slot, so that none of them can be what is left of a longer one. */
  predicate ShortNames(cs: seq<bytes>)
    requires cs != []
  {
    && |cs[|cs| - 1]| < FILE_ROOM
    && forall i | 0 <= i < |cs| - 1 :: |cs[i]| < DIR_ROOM
  }

  predicate IsFile(d: Dentry) {
    d.Node? && Proper(d)
  }

  predicate Fits(d: Dentry) {
    IsFile(d) && NamesFit(Components(d))
  }

  function RebuiltFor(d: Dentry): bytes
    requires d.Node?
  {
    PathOf(Captured(Components(d)))
  }

  lemma CapturedWhole(cs: seq<bytes>)
    requires cs != [] && NamesFit(cs)
    ensures Captured(cs) == Suffix(cs, MAX_DEPTH + 1)
  {
    var last := Suffix(cs, MAX_DEPTH + 1);
    forall i | 0 <= i < |last| ensures Captured(cs)[i] == last[i] {
      assert last[i] == cs[|cs| - |last| + i];
    }
  }

  /** With names that fit, the rebuilt path of a file consists of its last five components. */
  lemma RebuiltIsSuffix(d: Dentry)
    requires Fits(d)
    ensures Captured(Components(d)) == Suffix(Components(d), MAX_DEPTH + 1)
    ensures |Components(d)| <= MAX_DEPTH + 1 ==> RebuiltFor(d) == TruePath(d)
  {
    CapturedWhole(Components(d));
  }

  /** Whatever is captured fits; only a path of four short names at most was captured whole for certain. */
  lemma CapturedFits(cs: seq<bytes>)
    requires cs != [] && ProperNames(cs)
    ensures ProperNames(Captured(cs)) && NamesFit(Captured(cs))
    ensures |Captured(cs)| == Min(|cs|, MAX_DEPTH + 1)
    ensures |Captured(cs)| <= MAX_DEPTH && ShortNames(Captured(cs)) ==> Captured(cs) == cs
  {
    var ks := Captured(cs);
    CapturedProper(cs);
    if |ks| <= MAX_DEPTH && ShortNames(ks) {
      forall i | 0 <= i < |cs| ensures ks[i] == cs[i] {
      }
    }
  }

  /** Whatever its names, a file deeper than five components rebuilds to five of them, so a longer listed path matches no write or copy. */
  lemma NeverMatchedBelowFive(d: Dentry, listed: seq<bytes>)
    requires IsFile(d)
    requires ProperNames(listed) && |listed| > MAX_DEPTH + 1
    ensures RebuiltFor(d) != PathOf(listed)
  {
    ProperComponents(d);
    CapturedProper(Components(d));
    PathSlashes(Captured(Components(d)));
    PathSlashes(listed);
  }

  // ------------------------------------------------------------------ files that rebuild to another's path

  /** `n` letters "a". */
  function Letters(n: nat): bytes {
    seq(n, _ => 0x61)
  }

  /** `n` directories named "a". */
  function Padding(n: nat): seq<bytes> {
    seq(n, _ => [0x61])
  }

  lemma {:induction false} PaddingLength(n: nat)
    ensures |PathOf(Padding(n))| == 2 * n
  {
    if n == 0 {
    } else {
      assert Padding(n)[1..] == Padding(n - 1);
      PaddingLength(n - 1);
    }
  }

  function LongestEntry(list: seq<bytes>): (n: nat)
    ensures forall i | 0 <= i < |list| :: |list[i]| <= n
  {
    if list == [] then 0 else
    var k := |list| - 1;
    var m := LongestEntry(list[..k]);
    assert forall i | 0 <= i < k :: list[i] == list[..k][i];
    if |list[k]| > m then |list[k]| else m
  }

  /** A file, deeper than any entry of the list is long, that rebuilds to the given five components. */
  lemma Alias(cs: seq<bytes>, list: seq<bytes>) returns (d: Dentry)
    requires |cs| == MAX_DEPTH + 1 && ProperNames(cs) && NamesFit(cs)
    ensures Fits(d) && RebuiltFor(d) == PathOf(cs) && TruePath(d) !in list
  {
    var n := LongestEntry(list) + 1;
    var all := Padding(n) + cs;
    d := FromComponents(all);
    FromComponentsInverse(all);
    assert Suffix(all, MAX_DEPTH + 1) == cs;
    forall i | 0 <= i < |all| ensures ProperName(all[i]) {
      if i >= n {
        assert all[i] == cs[i - n];
      }
    }
    forall i | 0 <= i < |all| - 1 && |all| - 1 - MAX_DEPTH <= i ensures |all[i]| <= DIR_ROOM {
      assert all[i] == cs[i - n];
    }
    assert NamesFit(all) by {
      assert all[|all| - 1] == cs[|cs| - 1];
    }
    RebuiltIsSuffix(d);
    PathOfAppend(Padding(n), cs);
    PaddingLength(n);
  }

  lemma PathLonger(cs: seq<bytes>, k: nat)
    requires k < |cs|
    ensures |PathOf(cs)| > |cs[k]|
  {
    assert cs == cs[..k] + cs[k..];
    PathOfAppend(cs[..k], cs[k..]);
    BehindSlash(cs[k..]);
  }

  lemma LongerName(name: bytes, n: nat)
    requires ProperName(name)
    ensures ProperName(name + Letters(n))
  {
    if n == 0 {
      assert name + Letters(n) == name;
    } else {
      assert (name + Letters(n))[|name| + n - 1] == 0x61;
    }
  }

  /** Room for the text of component k of a path of n components. */
  function RoomFor(k: nat, n: nat): nat {
    if k + 1 == n then FILE_ROOM else DIR_ROOM
  }

  /** A file with a name longer than any entry of the list that rebuilds to the given path, one of whose names fills its slot. */
  lemma CutAlias(cs: seq<bytes>, k: nat, list: seq<bytes>) returns (d: Dentry)
    requires 0 < |cs| <= MAX_DEPTH + 1 && ProperNames(cs) && NamesFit(cs)
    requires k < |cs| && |cs[k]| == RoomFor(k, |cs|)
    ensures IsFile(d) && RebuiltFor(d) == PathOf(cs) && TruePath(d) !in list
  {
    var n := LongestEntry(list) + 1;
    var all := cs[k := cs[k] + Letters(n)];
    LongerName(cs[k], n);
    d := FromComponents(all);
    FromComponentsInverse(all);
    forall i | 0 <= i < |cs| ensures Captured(all)[i] == cs[i] {
      assert i == k ==> Take(all[i], RoomFor(i, |cs|)) == cs[i];
    }
    assert Captured(all) == cs;
    PathLonger(all, k);
  }

  /** Unless a captured path is shallow and short of its slots, some unlisted file rebuilds to it. */
  lemma UnlistedTwin(cs: seq<bytes>, list: seq<bytes>) returns (d: Dentry)
    requires 0 < |cs| <= MAX_DEPTH + 1 && ProperNames(cs) && NamesFit(cs)
    requires |cs| > MAX_DEPTH || !ShortNames(cs)
    ensures IsFile(d) && RebuiltFor(d) == PathOf(cs) && TruePath(d) !in list
  {
    if |cs| > MAX_DEPTH {
      d := Alias(cs, list);
    } else if |cs[|cs| - 1]| >= FILE_ROOM {
      d := CutAlias(cs, |cs| - 1, list);
    } else {
      var k: nat :| k < |cs| - 1 && |cs[k]| >= DIR_ROOM;
      d := CutAlias(cs, k, list);
    }
  }

  // ------------------------------------------------------------------ exactness

  /** For writes, copies and removals by bare name: matching rebuilt paths agrees with matching true paths about every file. */
  ghost predicate Exact(list: seq<bytes>) {
    forall d: Dentry | IsFile(d) :: RebuiltFor(d) in list <==> TruePath(d) in list
  }

  /** The same about every file whose names fit. */
  ghost predicate ExactWhereFitting(list: seq<bytes>) {
    forall d: Dentry | Fits(d) :: RebuiltFor(d) in list <==> TruePath(d) in list
  }

  /** An entry that, if it is a file's path at all, has at most four components. */
  predicate Shallow(path: bytes) {
    IsFilePath(path) ==> |FileParts(path)| <= MAX_DEPTH
  }

  /** An entry that, if it is a file's path at all, has only names that leave room in their slots. */
  predicate Roomy(path: bytes) {
    IsFilePath(path) ==> ShortNames(FileParts(path))
  }

  /** The test a caller can make on the text of an entry. */
  predicate Reliable(path: bytes) {
    Shallow(path) && Roomy(path)
  }

  predicate AllRoomy(list: seq<bytes>) {
    forall i | 0 <= i < |list| :: Roomy(list[i])
  }

  predicate AllReliable(list: seq<bytes>) {
    forall i | 0 <= i < |list| :: Reliable(list[i])
  }

  lemma UnreliableInexact(list: seq<bytes>, path: bytes)
    requires path in list && !Reliable(path)
    ensures !Exact(list)
  {
    var cs := FileParts(path);
    PathOfParts(path);
    var d := FromComponents(cs);
    FromComponentsInverse(cs);
    assert IsFile(d) && TruePath(d) in list;
    if RebuiltFor(d) in list {
      CapturedFits(cs);
      var twin := UnlistedTwin(Captured(cs), list);
      assert RebuiltFor(twin) == RebuiltFor(d);
    }
  }

  lemma ReliableDecides(list: seq<bytes>, d: Dentry)
    requires AllReliable(list) && IsFile(d)
    ensures RebuiltFor(d) in list <==> TruePath(d) in list
  {
    var cs := Components(d);
    var ks := Captured(cs);
    ProperComponents(d);
    CapturedFits(cs);
    if TruePath(d) in list {
      PartsOfPath(cs);
      assert Reliable(TruePath(d));
      CapturedWhole(cs);
    }
    if RebuiltFor(d) in list {
      PartsOfPath(ks);
      assert Reliable(RebuiltFor(d));
    }
  }

  /** Writes, copies and bare-name removals are decided by the true path if and only if every listed file path is shallow and short of its slots. */
  lemma ExactExactly(list: seq<bytes>)
    ensures Exact(list) <==> AllReliable(list)
  {
    if AllReliable(list) {
      forall d: Dentry | IsFile(d) ensures RebuiltFor(d) in list <==> TruePath(d) in list {
        ReliableDecides(list, d);
      }
    } else {
      var i :| 0 <= i < |list| && !Reliable(list[i]);
      UnreliableInexact(list, list[i]);
    }
  }

  /** An entry five or more components deep whose names fit. */
  predicate DeepAndFitting(path: bytes) {
    IsFilePath(path) && |FileParts(path)| > MAX_DEPTH && NamesFit(FileParts(path))
  }

  lemma DeepInexact(list: seq<bytes>, path: bytes)
    requires path in list && DeepAndFitting(path)
    ensures !ExactWhereFitting(list)
  {
    var cs := FileParts(path);
    PathOfParts(path);
    var d := FromComponents(cs);
    FromComponentsInverse(cs);
    RebuiltIsSuffix(d);
    CapturedFits(cs);
    var twin := Alias(Captured(cs), list);
    assert RebuiltFor(twin) == RebuiltFor(d);
  }

  lemma FittingDecides(list: seq<bytes>, d: Dentry)
    requires forall i | 0 <= i < |list| :: !DeepAndFitting(list[i])
    requires Fits(d)
    ensures RebuiltFor(d) in list <==> TruePath(d) in list
  {
    var cs := Components(d);
    RebuiltIsSuffix(d);
    if |cs| > MAX_DEPTH {
      ProperComponents(d);
      CapturedFits(cs);
      PartsOfPath(cs);
      PartsOfPath(Captured(cs));
      assert DeepAndFitting(TruePath(d)) && DeepAndFitting(RebuiltFor(d));
    }
  }

  /** Where no name is cut, it is exact if and only if no listed file path lies five or more components deep. */
  lemma FittingExactly(list: seq<bytes>)
    ensures ExactWhereFitting(list) <==> forall i | 0 <= i < |list| :: !DeepAndFitting(list[i])
  {
    if forall i | 0 <= i < |list| :: !DeepAndFitting(list[i]) {
      forall d: Dentry | Fits(d) ensures RebuiltFor(d) in list <==> TruePath(d) in list {
        FittingDecides(list, d);
      }
    } else {
      var i :| 0 <= i < |list| && DeepAndFitting(list[i]);
      DeepInexact(list, list[i]);
    }
  }

  lemma AcceptedShallow(list: seq<bytes>, configured: int, i: nat)
    requires AcceptedList(list, configured) && EffectiveLevel(configured) <= MAX_DEPTH && i < |list|
    ensures Shallow(list[i])
  {
    if IsFilePath(list[i]) {
      PathOfParts(list[i]);
      LevelOfPath(FileParts(list[i]));
    }
  }

  /** A list load_config accepts at a limit of five or more, though none of its names is long. */
  lemma DeepAccepted(configured: int) returns (list: seq<bytes>)
    requires EffectiveLevel(configured) > MAX_DEPTH
    ensures AcceptedList(list, configured) && AllRoomy(list)
    ensures |list| == 1 && DeepAndFitting(list[0])
  {
    var cs := Padding(MAX_DEPTH + 1);
    list := [PathOf(cs)];
    PartsOfPath(cs);
    LevelOfPath(cs);
  }

  /**
   * The level check makes the filter exact precisely when the limit does not exceed the depth of the walk: on the
   * files whose names fit, and on all files provided the entries are short of their slots.
   */
  lemma LevelLimit(configured: int)
    ensures (forall list | AcceptedList(list, configured) :: ExactWhereFitting(list)) <==> EffectiveLevel(configured) <= MAX_DEPTH
    ensures (forall list | AcceptedList(list, configured) && AllRoomy(list) :: Exact(list))
            <==> EffectiveLevel(configured) <= MAX_DEPTH
  {
    if EffectiveLevel(configured) <= MAX_DEPTH {
      forall list | AcceptedList(list, configured) ensures ExactWhereFitting(list) && (AllRoomy(list) ==> Exact(list)) {
        forall i | 0 <= i < |list| ensures Shallow(list[i]) {
          AcceptedShallow(list, configured, i);
        }
        FittingExactly(list);
        ExactExactly(list);
      }
    } else {
      var list := DeepAccepted(configured);
      FittingExactly(list);
      ExactExactly(list);
      assert !Reliable(list[0]);
    }
  }

  lemma FillingName(n: nat)
    requires n > 0
    ensures ProperName(Letters(n))
  {
    assert Letters(n)[0] == 0x61;
  }

  /** No level limit suffices by itself: it lets through names that fill their slots. */
  lemma LevelNeverSuffices(configured: int)
    ensures exists list :: AcceptedList(list, configured) && !Exact(list)
  {
    var cs := [Letters(FILE_ROOM)];
    var list := [PathOf(cs)];
    FillingName(FILE_ROOM);
    PartsOfPath(cs);
    LevelOfPath(cs);
    assert !Roomy(list[0]);
    ExactExactly(list);
    assert AcceptedList(list, configured);
  }

  /** What it takes for an entry not to mislead the decision about `d`. */
  predicate Suits(path: bytes, d: Dentry)
    requires d.Node?
  {
    Shallow(path) && (Roomy(path) || NamesFit(Components(d)))
  }

  predicate ListSuits(list: seq<bytes>, d: Dentry)
    requires d.Node?
  {
    forall i | 0 <= i < |list| :: Suits(list[i], d)
  }

  lemma SuitableDecides(list: seq<bytes>, d: Dentry)
    requires IsFile(d) && ListSuits(list, d)
    ensures RebuiltFor(d) in list <==> TruePath(d) in list
  {
    if NamesFit(Components(d)) {
      FittingDecides(list, d);
    } else {
      ReliableDecides(list, d);
    }
  }

  // ------------------------------------------------------------------ from dentry to decision

  lemma MatchedForFile(task: Task, ino: nat, d: Dentry, flag: Syscall)
    requires IsFile(d) && (flag == Write || flag == CopyFileRange)
    ensures var e := FileEvent(task, ino, d, flag);
            && Matched(e) == Some(RebuiltFor(d)) && RebuiltFor(d) != []
            && (ValidFilename(e.filename) <==> d.name[0] != DOT)
  {
    RebuiltPath(task, ino, d, flag);
    ProperComponents(d);
    CapturedProper(Components(d));
    PathEnd(Captured(Components(d)));
  }

  /** A write or copy is decided by the rebuilt path, whatever the file and the list. */
  lemma AcceptedByRebuilt(st: Settings, task: Task, ino: nat, d: Dentry, flag: Syscall)
    requires !st.verbose
    requires IsFile(d) && (flag == Write || flag == CopyFileRange)
    requires task.tgid != 0 && !Skipped(st.skip, task.comm)
    ensures Accepts(st, FileEvent(task, ino, d, flag)) <==> d.name[0] != DOT && RebuiltFor(d) in st.confList
  {
    MatchedForFile(task, ino, d, flag);
  }

  /**
   * End to end, from the dentry the kernel sees to the decision in user space: a write or copy is reported if and
   * only if the file is listed by its true path and is not hidden, provided the listed file paths are shallow and
   * either they or the file's own names keep to their slots.
   */
  lemma ExactDecision(st: Settings, task: Task, ino: nat, d: Dentry, flag: Syscall)
    requires !st.verbose
    requires IsFile(d) && (flag == Write || flag == CopyFileRange)
    requires ListSuits(st.confList, d)
    requires task.tgid != 0 && !Skipped(st.skip, task.comm)
    ensures Accepts(st, FileEvent(task, ino, d, flag)) <==> d.name[0] != DOT && TruePath(d) in st.confList
  {
    AcceptedByRebuilt(st, task, ino, d, flag);
    SuitableDecides(st.confList, d);
  }

  /** The same for a list load_config accepted at the default limit or below. */
  lemma ExactFilter(st: Settings, configured: int, task: Task, ino: nat, d: Dentry, flag: Syscall)
    requires AcceptedList(st.confList, configured) && EffectiveLevel(configured) <= MAX_DEPTH
    requires !st.verbose
    requires IsFile(d) && (flag == Write || flag == CopyFileRange)
    requires AllRoomy(st.confList) || NamesFit(Components(d))
    requires task.tgid != 0 && !Skipped(st.skip, task.comm)
    ensures Accepts(st, FileEvent(task, ino, d, flag)) <==> d.name[0] != DOT && TruePath(d) in st.confList
  {
    forall i | 0 <= i < |st.confList| ensures Suits(st.confList[i], d) {
      AcceptedShallow(st.confList, configured, i);
    }
    ExactDecision(st, task, ino, d, flag);
  }

  /** A write that is reported though its file is not listed: "x" in a directory of 16 letters, listed with 15 of them. */
  lemma CutNameReported(st: Settings, task: Task, ino: nat)
    requires st.confList == [PathOf([Letters(DIR_ROOM), [0x78]])] && !st.verbose
    requires task.tgid != 0 && !Skipped(st.skip, task.comm)
    ensures AcceptedList(st.confList, DEFAULT_DIR_LEVEL)
    ensures var d := Node(Node(Root, Letters(DIR_ROOM + 1)), [0x78]);
            IsFile(d) && TruePath(d) !in st.confList && Accepts(st, FileEvent(task, ino, d, Write))
  {
    var listed: seq<bytes> := [Letters(DIR_ROOM), [0x78]];
    var cs: seq<bytes> := [Letters(DIR_ROOM + 1), [0x78]];
    var d := Node(Node(Root, cs[0]), cs[1]);
    FillingName(DIR_ROOM);
    FillingName(DIR_ROOM + 1);
    assert Components(Node(Root, cs[0])) == [cs[0]] && Components(d) == cs;
    assert Proper(d) by {
      assert ProperName(cs[1]) && Proper(Node(Root, cs[0]));
    }
    assert Captured(cs) == listed by {
      assert Take(cs[0], DIR_ROOM) == listed[0] && Suffix(cs, MAX_DEPTH + 1) == cs;
      assert Captured(cs)[0] == listed[0] && Captured(cs)[1] == listed[1];
    }
    LevelOfPath(listed);
    if PathOf(cs) == PathOf(listed) {
      PathInjective(cs, listed);
    }
    AcceptedByRebuilt(st, task, ino, d, Write);
  }

  // ------------------------------------------------------------------ unlinkat

  /** Removing a bare name from a resolved directory is matched by the path a write to the same file is matched by. */
  lemma UnlinkMatchesWrite(task: Task, ino: nat, dir: Dentry, name: bytes)
    requires ProperName(name)
    ensures FullPath(UnlinkEvent(task, Some(dir), name)) == FullPath(FileEvent(task, ino, Node(dir, name), Write))
  {
    WalksAgree(Node(dir, name), MAX_DEPTH);
    assert ReadStr(FILE_ROOM, name)[0] == name[0];
    assert name[0] in name;
  }

  /** The end-to-end statement carries over to a removal by bare name from a resolved directory. */
  lemma ExactUnlink(st: Settings, task: Task, dir: Dentry, name: bytes)
    requires !st.verbose
    requires IsFile(Node(dir, name)) && ListSuits(st.confList, Node(dir, name))
    requires task.tgid != 0 && !Skipped(st.skip, task.comm)
    ensures Accepts(st, UnlinkEvent(task, Some(dir), name)) <==> name[0] != DOT && TruePath(Node(dir, name)) in st.confList
  {
    UnlinkMatchesWrite(task, 0, dir, name);
    ExactDecision(st, task, 0, Node(dir, name), Write);
  }

  /** Removing any relative name: the directory contributes its last four components, the name follows as written, cut to its room. */
  lemma UnlinkRelative(task: Task, dir: Dentry, pathname: bytes)
    requires Proper(dir)
    requires pathname != [] && pathname[0] != SLASH
    ensures FullPath(UnlinkEvent(task, Some(dir), pathname)) ==
            PathOf(Truncated(Suffix(Components(dir), MAX_DEPTH)) + [ReadStr(FILE_ROOM, pathname)])
  {
    var e := UnlinkEvent(task, Some(dir), pathname);
    var w := ChainWalk(dir, MAX_DEPTH);
    var cs := Truncated(Suffix(Components(dir), MAX_DEPTH)) + [e.filename];
    assert e.filename[0] == pathname[0];
    assert [e.dir1, e.dir2, e.dir3, e.dir4] == Filled(BLANK, w);
    KeptOfSlots(e, w);
    KeptOfWalk(dir, MAX_DEPTH);
    assert Kept([e.filename]) == [e.filename];
    KeptNotSkippable(Parts(e));
    if |cs| > 1 {
      var name := Suffix(Components(dir), MAX_DEPTH)[0];
      ProperComponents(dir);
      assert name in Components(dir);
      assert ProperName(name);
      assert cs[0][0] == name[0] && name[0] in name;
    }
    RootedJoin(cs);
  }

  /** The "file" field of the published record. */
  function Reported(e: Event): bytes {
    if e.flag == Write || e.flag == CopyFileRange then FullPath(e) else e.filename
  }

  /** A write or copy is reported under the path rebuilt from what was captured, a rename under its new name. */
  lemma ReportedName(task: Task, ino: nat, d: Dentry, e: Event)
    requires IsFile(d)
    ensures Reported(FileEvent(task, ino, d, Write)) == RebuiltFor(d)
    ensures Reported(FileEvent(task, ino, d, CopyFileRange)) == RebuiltFor(d)
    ensures e.flag != Write && e.flag != CopyFileRange ==> Reported(e) == e.filename
  {
    RebuiltPath(task, ino, d, Write);
    RebuiltPath(task, ino, d, CopyFileRange);
  }

  /** An accepted removal is reported under the string it was matched by exactly when the caller passed an absolute name. */
  lemma ReportedExactly(st: Settings, task: Task, base: Option<Dentry>, pathname: bytes)
    requires !st.verbose
    requires Accepts(st, UnlinkEvent(task, base, pathname))
    ensures var e := UnlinkEvent(task, base, pathname);
            Reported(e) == Matched(e).value <==> pathname[0] == SLASH
  {
    var e := UnlinkEvent(task, base, pathname);
    assert e.filename[0] == pathname[0];
    if pathname[0] == SLASH {
      PartsOfSlots(e);
      assert [e.dir1, e.dir2, e.dir3, e.dir4] == Filled(BLANK, []);
      KeptOfSlots(e, []);
      assert Kept(Parts(e)) == Kept([e.filename]);
      assert Kept([e.filename]) == if Skippable(e.filename) then [] else [e.filename];
    } else {
      assert Rooted(Join(Kept(Parts(e)), SLASH)) == [] || Rooted(Join(Kept(Parts(e)), SLASH))[0] == SLASH;
    }
  }

  /** It does happen: "a", removed from the top directory under a list that names "/a". */
  lemma BareNameReported()
    ensures exists st: Settings, task: Task, base: Option<Dentry>, pathname: bytes ::
              && !st.verbose
              && Accepts(st, UnlinkEvent(task, base, pathname))
              && Reported(UnlinkEvent(task, base, pathname)) != Matched(UnlinkEvent(task, base, pathname)).value
  {
    var name: bytes := [0x61];
    var st := Settings([[SLASH, 0x61]], [], false, []);
    var task := Task(1, None, [], 0, 0);
    assert PathOf([name]) == [SLASH, 0x61];
    UnlinkRelative(task, Root, name);
    assert Truncated([]) == [] && ReadStr(FILE_ROOM, name) == name;
    assert Truncated(Suffix(Components(Root), MAX_DEPTH)) + [ReadStr(FILE_ROOM, name)] == [name];
    assert Matched(UnlinkEvent(task, Some(Root), name)) == Some(st.confList[0]);
    ReportedExactly(st, task, Some(Root), name);
  }
}

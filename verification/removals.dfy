/**
 * Removals by names of any kind: enter_unlinkat of src/filetrace.bpf.c captures the name as the caller wrote it,
 * get_full_path of src/post.cpp puts the directory's captured names in front of a relative one.
 */
module Removals {
  import opened Text
  import opened Capture
  import opened Paths
  import opened SkipList
  import opened Filter

  // ------------------------------------------------------------------ beginnings of paths

  /** Told from the text: some file path goes on from here. */
  predicate Continues(path: bytes) {
    path != [] && IsFilePath(path + Letters(1))
  }

  lemma ProperWhole(s: bytes)
    requires SLASH !in s
    ensures ProperNames(Split(s, SLASH)) <==> ProperName(s)
  {
    assert Split(s, SLASH) == [s];
    assert Split(s, SLASH)[0] == s;
  }

  lemma ContinuedName(name: bytes, n: nat)
    requires ProperName(name) && n <= |name|
    ensures ProperName(name[..n] + Letters(1))
  {
    var t := name[..n] + Letters(1);
    assert t[n] == 0x61;
    forall i | 0 <= i < n ensures t[i] in name {
      assert t[i] == name[i];
    }
  }

  lemma ContinuedFirst(s: bytes, n: nat)
    requires n <= |s| && SLASH !in s[..n] && ProperNames(Split(s, SLASH))
    ensures ProperName(s[..n] + Letters(1)) && SLASH !in s[..n] + Letters(1)
  {
    var k := IndexOf(s, SLASH);
    var first := Split(s, SLASH)[0];
    forall i | 0 <= i < n ensures s[i] != SLASH {
      assert s[i] == s[..n][i];
    }
    assert first[..n] == s[..n];
    ContinuedName(first, n);
  }

  lemma Together(a: seq<bytes>, b: seq<bytes>)
    ensures ProperNames(a + b) <==> ProperNames(a) && ProperNames(b)
  {
    if ProperNames(a + b) {
      assert forall i | 0 <= i < |a| :: a[i] == (a + b)[i];
      assert forall i | 0 <= i < |b| :: b[i] == (a + b)[|a| + i];
    }
  }

  lemma ContinuedLater(front: bytes, rest: bytes, n: nat)
    requires n <= |rest| && SLASH !in rest[..n] && ProperNames(Split(front + [SLASH] + rest, SLASH))
    ensures ProperNames(Split(front + [SLASH] + (rest[..n] + Letters(1)), SLASH))
  {
    SplitAppend(front, rest, SLASH);
    Together(Split(front, SLASH), Split(rest, SLASH));
    ContinuedFirst(rest, n);
    SplitAppend(front, rest[..n] + Letters(1), SLASH);
    ProperWhole(rest[..n] + Letters(1));
    Together(Split(front, SLASH), Split(rest[..n] + Letters(1), SLASH));
  }

  /** The last '/' before position n, and what stands around it. */
  lemma LastSlash(s: bytes, n: nat) returns (front: bytes, rest: bytes, m: nat)
    requires n <= |s| && SLASH in s[..n]
    ensures s == front + [SLASH] + rest && m <= |rest|
    ensures s[..n] == front + [SLASH] + rest[..m] && SLASH !in rest[..m]
  {
    var j := LastIndexOf(s[..n], SLASH);
    front, rest, m := s[..j], s[j + 1..], n - j - 1;
    assert rest[..m] == s[..n][j + 1..];
  }

  lemma ContinuedParts(s: bytes, n: nat)
    requires n <= |s| && ProperNames(Split(s, SLASH))
    ensures ProperNames(Split(s[..n] + Letters(1), SLASH))
  {
    if SLASH in s[..n] {
      var front, rest, m := LastSlash(s, n);
      ContinuedLater(front, rest, m);
      assert front + [SLASH] + rest[..m] + Letters(1) == front + [SLASH] + (rest[..m] + Letters(1));
    } else {
      ContinuedFirst(s, n);
      ProperWhole(s[..n] + Letters(1));
    }
  }

  lemma LongerParts(s: bytes, n: nat)
    requires ProperNames(Split(s, SLASH))
    ensures ProperNames(Split(s + Letters(n), SLASH))
  {
    if SLASH in s {
      var front, rest, m := LastSlash(s, |s|);
      assert rest[..m] == rest && s[..|s|] == s;
      SplitAppend(front, rest, SLASH);
      Together(Split(front, SLASH), Split(rest, SLASH));
      ProperWhole(rest);
      LongerName(rest, n);
      ProperWhole(rest + Letters(n));
      SplitAppend(front, rest + Letters(n), SLASH);
      Together(Split(front, SLASH), Split(rest + Letters(n), SLASH));
      assert s + Letters(n) == front + [SLASH] + (rest + Letters(n));
    } else {
      ProperWhole(s);
      LongerName(s, n);
      ProperWhole(s + Letters(n));
    }
  }

  lemma LongerPath(path: bytes, n: nat)
    requires Continues(path) && n > 0
    ensures IsFilePath(path + Letters(n))
  {
    var more := path + Letters(1);
    LongerParts(more[1..], n - 1);
    assert path + Letters(n) == more + Letters(n - 1);
    assert (more + Letters(n - 1))[1..] == more[1..] + Letters(n - 1);
  }

  lemma ContinuesBehindSlash(s: bytes)
    requires ProperNames(Split(s + Letters(1), SLASH))
    ensures Continues([SLASH] + s)
  {
    assert ([SLASH] + s + Letters(1))[1..] == s + Letters(1);
  }

  lemma PrefixContinues(path: bytes, n: nat)
    requires IsFilePath(path) && 0 < n <= |path|
    ensures Continues(path[..n])
  {
    var s := path[1..];
    ContinuedParts(s, n - 1);
    ContinuesBehindSlash(s[..n - 1]);
    assert path[..n] == [SLASH] + s[..n - 1];
  }

  lemma TooLong(path: bytes, list: seq<bytes>)
    requires |path| > LongestEntry(list)
    ensures path !in list
  {
  }

  // ------------------------------------------------------------------ absolute names

  /** An absolute name is matched as it was captured: cut to the room for a file name. */
  lemma MatchedAbsolute(task: Task, base: Option<Dentry>, path: bytes)
    requires path != [] && path[0] == SLASH
    ensures FullPath(UnlinkEvent(task, base, path)) == if path == [SLASH] then [] else Take(path, FILE_ROOM)
  {
    var e := UnlinkEvent(task, base, path);
    assert e.filename[0] == SLASH;
    PartsOfSlots(e);
    assert [e.dir1, e.dir2, e.dir3, e.dir4] == Filled(BLANK, []);
    KeptOfSlots(e, []);
    assert Kept(Parts(e)) == Kept([e.filename]);
    assert Kept([e.filename]) == if Skippable(e.filename) then [] else [e.filename];
    if path == [SLASH] {
      assert e.filename == [SLASH];
    } else {
      assert |e.filename| > 1;
    }
  }

  /** Whatever the text of the name: it need not be visible, nor a path in its simplest form. */
  lemma AcceptedByAbsoluteName(st: Settings, task: Task, base: Option<Dentry>, path: bytes)
    requires !st.verbose
    requires path != [] && path[0] == SLASH
    requires task.tgid != 0 && !Skipped(st.skip, task.comm)
    ensures Accepts(st, UnlinkEvent(task, base, path)) <==> path != [SLASH] && Take(path, FILE_ROOM) in st.confList
  {
    MatchedAbsolute(task, base, path);
    assert UnlinkEvent(task, base, path).filename[0] == SLASH;
  }

  /** Matching absolute names as captured agrees with matching true paths. */
  ghost predicate ExactForAbsolute(list: seq<bytes>) {
    forall path | IsFilePath(path) :: Take(path, FILE_ROOM) in list <==> path in list
  }

  /** An entry that is cut when it is captured, or that is what is left of longer paths. */
  predicate AbsoluteCut(path: bytes) {
    (IsFilePath(path) && |path| > FILE_ROOM) || (|path| == FILE_ROOM && Continues(path))
  }

  predicate NoneAbsoluteCut(list: seq<bytes>) {
    forall i | 0 <= i < |list| :: !AbsoluteCut(list[i])
  }

  lemma FullLengthInexact(list: seq<bytes>, path: bytes)
    requires path in list && |path| == FILE_ROOM && Continues(path)
    ensures !ExactForAbsolute(list)
  {
    var longer := path + Letters(LongestEntry(list) + 1);
    LongerPath(path, LongestEntry(list) + 1);
    TooLong(longer, list);
    assert Take(longer, FILE_ROOM) == path;
  }

  lemma AbsoluteCutInexact(list: seq<bytes>, path: bytes)
    requires path in list && AbsoluteCut(path)
    ensures !ExactForAbsolute(list)
  {
    if |path| == FILE_ROOM && Continues(path) {
      FullLengthInexact(list, path);
    } else if Take(path, FILE_ROOM) in list {
      PrefixContinues(path, FILE_ROOM);
      FullLengthInexact(list, Take(path, FILE_ROOM));
    }
  }

  lemma AbsoluteDecides(list: seq<bytes>, path: bytes)
    requires NoneAbsoluteCut(list) && IsFilePath(path)
    ensures Take(path, FILE_ROOM) in list <==> path in list
  {
    if |path| <= FILE_ROOM {
      assert Take(path, FILE_ROOM) == path;
    } else {
      PrefixContinues(path, FILE_ROOM);
      assert AbsoluteCut(path) && AbsoluteCut(Take(path, FILE_ROOM));
    }
  }

  /**
   * Removals by absolute name are decided by the true path if and only if no listed file path is longer than 63
   * bytes and no entry of exactly 63 bytes, a closing '/' included, is the beginning of a file path.
   */
  lemma AbsoluteExactly(list: seq<bytes>)
    ensures ExactForAbsolute(list) <==> NoneAbsoluteCut(list)
  {
    if NoneAbsoluteCut(list) {
      forall path | IsFilePath(path) ensures Take(path, FILE_ROOM) in list <==> path in list {
        AbsoluteDecides(list, path);
      }
    } else {
      var i :| 0 <= i < |list| && AbsoluteCut(list[i]);
      AbsoluteCutInexact(list, list[i]);
    }
  }

  /** Then the removal of any file, hidden ones included, is accepted exactly when the file is listed. */
  lemma ExactAbsoluteUnlink(st: Settings, task: Task, base: Option<Dentry>, d: Dentry)
    requires !st.verbose && NoneAbsoluteCut(st.confList)
    requires IsFile(d)
    requires task.tgid != 0 && !Skipped(st.skip, task.comm)
    ensures Accepts(st, UnlinkEvent(task, base, TruePath(d))) <==> TruePath(d) in st.confList
  {
    FilePathExactly(TruePath(d));
    AbsoluteDecides(st.confList, TruePath(d));
    ProperComponents(d);
    PathEnd(Components(d));
    AcceptedByAbsoluteName(st, task, base, TruePath(d));
  }

  /** A list exact for writes, and the removal of an unlisted file that is reported: 62 letters are listed, 63 removed. */
  lemma CutPathReported(st: Settings, task: Task, base: Option<Dentry>)
    requires st.confList == [PathOf([Letters(FILE_ROOM - 1)])] && !st.verbose
    requires task.tgid != 0 && !Skipped(st.skip, task.comm)
    ensures AcceptedList(st.confList, DEFAULT_DIR_LEVEL) && Exact(st.confList)
    ensures var d := Node(Root, Letters(FILE_ROOM));
            && IsFile(d) && TruePath(d) !in st.confList
            && Accepts(st, UnlinkEvent(task, base, TruePath(d)))
  {
    var cs, longer := [Letters(FILE_ROOM - 1)], [Letters(FILE_ROOM)];
    FillingName(FILE_ROOM - 1);
    FillingName(FILE_ROOM);
    PartsOfPath(cs);
    LevelOfPath(cs);
    ExactExactly(st.confList);
    assert Components(Node(Root, longer[0])) == longer;
    assert PathOf(longer) == [SLASH] + longer[0] && PathOf(cs) == [SLASH] + cs[0];
    assert Take(PathOf(longer), FILE_ROOM) == PathOf(cs);
    AcceptedByAbsoluteName(st, task, base, PathOf(longer));
  }

  // ------------------------------------------------------------------ relative names

  /** What the slots retain of a resolved base directory. */
  function Retained(dir: Dentry): seq<bytes> {
    Truncated(Suffix(Components(dir), MAX_DEPTH))
  }

  function RelativeMatch(dir: Dentry, name: bytes): bytes {
    PathOf(Retained(dir)) + [SLASH] + Take(name, FILE_ROOM)
  }

  lemma RetainedThen(dir: Dentry, name: bytes)
    ensures PathOf(Retained(dir) + [Take(name, FILE_ROOM)]) == RelativeMatch(dir, name)
  {
    var last := Take(name, FILE_ROOM);
    PathOfAppend(Retained(dir), [last]);
    assert PathOf([last]) == [SLASH] + last + PathOf([last][1..]);
  }

  lemma MatchedRelative(task: Task, dir: Dentry, name: bytes)
    requires Proper(dir) && name != [] && name[0] != SLASH
    ensures FullPath(UnlinkEvent(task, Some(dir), name)) == RelativeMatch(dir, name)
  {
    UnlinkRelative(task, dir, name);
    RetainedThen(dir, name);
  }

  /** Whatever the text of the relative name. */
  lemma AcceptedByRelativeName(st: Settings, task: Task, dir: Dentry, name: bytes)
    requires !st.verbose
    requires Proper(dir) && name != [] && name[0] != SLASH
    requires task.tgid != 0 && !Skipped(st.skip, task.comm)
    ensures Accepts(st, UnlinkEvent(task, Some(dir), name)) <==> name[0] != DOT && RelativeMatch(dir, name) in st.confList
  {
    var e := UnlinkEvent(task, Some(dir), name);
    MatchedRelative(task, dir, name);
    assert Matched(e) == Some(RelativeMatch(dir, name));
    assert e.filename != [] && e.filename[0] == name[0];
  }

  /** Matching relative names as captured agrees with matching true paths, whatever the base directory. */
  ghost predicate ExactForRelative(list: seq<bytes>) {
    forall dir: Dentry, names | Proper(dir) && names != [] && ProperNames(names) ::
      RelativeMatch(dir, Join(names, SLASH)) in list <==> PathOf(Components(dir) + names) in list
  }

  /** A directory path the slots retain in full. */
  predicate HeadFits(head: bytes) {
    head == []
    || (IsFilePath(head) && |FileParts(head)| <= MAX_DEPTH
        && forall i | 0 <= i < |FileParts(head)| :: |FileParts(head)[i]| <= DIR_ROOM)
  }

  /** Where the last 63 bytes and the '/' in front of them begin. */
  function CutAt(path: bytes): int {
    |path| - FILE_ROOM - 1
  }

  /** What is left of longer names, removed from the directory in front. */
  predicate FullTail(path: bytes) {
    CutAt(path) >= 0 && path[CutAt(path)] == SLASH && Continues(path) && HeadFits(path[..CutAt(path)])
  }

  /** An entry that is cut when it is captured as a relative name, or that is what is left of longer names. */
  predicate RelativeCut(path: bytes) {
    (IsFilePath(path) && |path| > FILE_ROOM + 1) || FullTail(path)
  }

  predicate NoneRelativeCut(list: seq<bytes>) {
    forall i | 0 <= i < |list| :: !RelativeCut(list[i])
  }

  lemma RetainedProper(dir: Dentry)
    requires Proper(dir)
    ensures ProperNames(Retained(dir)) && |Retained(dir)| == Min(|Components(dir)|, MAX_DEPTH)
    ensures forall i | 0 <= i < |Retained(dir)| :: |Retained(dir)[i]| <= DIR_ROOM
  {
    var cs := Components(dir);
    ProperComponents(dir);
    forall i | 0 <= i < |Retained(dir)| ensures ProperName(Retained(dir)[i]) {
      PrefixProper(Retained(dir)[i], cs[|cs| - |Retained(dir)| + i]);
    }
  }

  lemma RetainedWhole(dir: Dentry)
    requires |Components(dir)| <= MAX_DEPTH
    requires (forall i | 0 <= i < |Components(dir)| :: |Components(dir)[i]| <= DIR_ROOM)
             || (forall i | 0 <= i < |Retained(dir)| :: |Retained(dir)[i]| < DIR_ROOM)
    ensures Retained(dir) == Components(dir)
  {
    forall i | 0 <= i < |Components(dir)| ensures Retained(dir)[i] == Components(dir)[i] {
    }
  }

  /** A removal by bare name is matched as a write to the file is. */
  lemma BareNameRebuilt(dir: Dentry, name: bytes)
    ensures RelativeMatch(dir, name) == RebuiltFor(Node(dir, name))
  {
    CapturedStep(Components(dir), name);
    RetainedThen(dir, name);
  }

  lemma RelativeImpliesExact(list: seq<bytes>)
    requires ExactForRelative(list)
    ensures Exact(list)
  {
    forall d: Dentry | IsFile(d) ensures RebuiltFor(d) in list <==> TruePath(d) in list {
      BareNameRebuilt(d.parent, d.name);
      assert Join([d.name], SLASH) == d.name && ProperNames([d.name]);
      assert Node(d.parent, d.name) == d;
    }
  }

  lemma PartsBehindSlash(s: bytes)
    ensures FileParts([SLASH] + s) == Split(s, SLASH)
  {
    assert ([SLASH] + s)[1..] == s;
  }

  lemma PathOfSplit(s: bytes)
    ensures PathOf(Split(s, SLASH)) == [SLASH] + s
  {
    JoinSplit(s, SLASH);
    JoinIsPath(Split(s, SLASH));
  }

  lemma NamesBehind(h: bytes, name: bytes)
    requires ProperNames(Split(h + [SLASH] + name, SLASH))
    ensures ProperNames(Split(h, SLASH)) && ProperNames(Split(name, SLASH))
    ensures PathOf(Split(h, SLASH) + Split(name, SLASH)) == [SLASH] + (h + [SLASH] + name)
  {
    SplitAppend(h, name, SLASH);
    Together(Split(h, SLASH), Split(name, SLASH));
    PathOfSplit(h + [SLASH] + name);
  }

  lemma BehindFirst(path: bytes) returns (s: bytes)
    requires path != [] && path[0] == SLASH
    ensures path == [SLASH] + s
  {
    s := path[1..];
  }

  function HeadParts(head: bytes): seq<bytes> {
    if head == [] then [] else FileParts(head)
  }

  lemma HeadBehindSlash(h: bytes, name: bytes)
    requires IsFilePath([SLASH] + h) && IsFilePath([SLASH] + h + [SLASH] + name)
    ensures ProperNames(Split(name, SLASH)) && PathOf(FileParts([SLASH] + h)) == [SLASH] + h
    ensures PathOf(FileParts([SLASH] + h) + Split(name, SLASH)) == [SLASH] + h + [SLASH] + name
  {
    Regrouped([SLASH], h, [SLASH], name, []);
    PartsBehindSlash(h);
    PartsBehindSlash(h + [SLASH] + name);
    NamesBehind(h, name);
    PathOfSplit(h);
  }

  lemma HeadAndName(head: bytes, name: bytes)
    requires HeadFits(head) && IsFilePath(head + [SLASH] + name)
    ensures ProperNames(Split(name, SLASH))
    ensures ProperNames(HeadParts(head)) && PathOf(HeadParts(head)) == head
    ensures PathOf(HeadParts(head) + Split(name, SLASH)) == head + [SLASH] + name
  {
    if head == [] {
      assert head + [SLASH] + name == [SLASH] + name;
      PartsBehindSlash(name);
      PathOfSplit(name);
      assert HeadParts(head) + Split(name, SLASH) == Split(name, SLASH);
    } else {
      var h := BehindFirst(head);
      HeadBehindSlash(h, name);
    }
  }

  lemma FittingHead(cs: seq<bytes>) returns (dir: Dentry)
    requires ProperNames(cs) && |cs| <= MAX_DEPTH && forall i | 0 <= i < |cs| :: |cs[i]| <= DIR_ROOM
    ensures Proper(dir) && Components(dir) == cs && Retained(dir) == cs
  {
    dir := FromComponents(cs);
    FromComponentsInverse(cs);
    RetainedWhole(dir);
  }

  /** The file of which a full tail is what is left. */
  lemma FullTailInexact(list: seq<bytes>, path: bytes)
    requires path in list && FullTail(path)
    ensures !ExactForRelative(list)
  {
    var n := LongestEntry(list) + 1;
    var head, tail := path[..CutAt(path)], path[CutAt(path) + 1..];
    var name, longer := tail + Letters(n), path + Letters(n);
    assert path == head + [SLASH] + tail && longer == head + [SLASH] + name;
    LongerPath(path, n);
    TooLong(longer, list);
    HeadAndName(head, name);
    var dir := FittingHead(HeadParts(head));
    JoinSplit(name, SLASH);
    assert Take(name, FILE_ROOM) == tail;
    assert RelativeMatch(dir, Join(Split(name, SLASH), SLASH)) == path;
  }

  lemma MatchedFromTop(name: bytes)
    ensures RelativeMatch(Root, name) == Take([SLASH] + name, FILE_ROOM + 1)
  {
    assert Retained(Root) == [] && PathOf([]) == [];
  }

  lemma RemovedFromTop(path: bytes)
    requires IsFilePath(path)
    ensures FileParts(path) != [] && ProperNames(FileParts(path))
    ensures PathOf(Components(Root) + FileParts(path)) == path
    ensures RelativeMatch(Root, Join(FileParts(path), SLASH)) == Take(path, FILE_ROOM + 1)
  {
    PathOfParts(path);
    JoinIsPath(FileParts(path));
    assert Components(Root) + FileParts(path) == FileParts(path);
    MatchedFromTop(Join(FileParts(path), SLASH));
  }

  lemma RelativeCutInexact(list: seq<bytes>, path: bytes)
    requires path in list && RelativeCut(path)
    ensures !ExactForRelative(list)
  {
    if FullTail(path) {
      FullTailInexact(list, path);
    } else {
      var left := Take(path, FILE_ROOM + 1);
      RemovedFromTop(path);
      if left in list {
        PrefixContinues(path, FILE_ROOM + 1);
        assert left[..CutAt(left)] == [];
        FullTailInexact(list, left);
      } else {
        assert RelativeMatch(Root, Join(FileParts(path), SLASH)) !in list;
      }
    }
  }

  /** A relative name that is not cut is matched by the directory's retained names followed by its own. */
  lemma MatchedUncut(dir: Dentry, names: seq<bytes>)
    requires names != [] && |Join(names, SLASH)| <= FILE_ROOM
    ensures RelativeMatch(dir, Join(names, SLASH)) == PathOf(Retained(dir) + names)
  {
    assert Take(Join(names, SLASH), FILE_ROOM) == Join(names, SLASH);
    JoinIsPath(names);
    PathOfAppend(Retained(dir), names);
  }

  lemma UncutDecides(list: seq<bytes>, dir: Dentry, names: seq<bytes>)
    requires AllReliable(list) && Proper(dir) && names != [] && ProperNames(names)
    requires |Join(names, SLASH)| <= FILE_ROOM
    ensures RelativeMatch(dir, Join(names, SLASH)) in list <==> PathOf(Components(dir) + names) in list
  {
    var ks, cs := Retained(dir) + names, Components(dir) + names;
    MatchedUncut(dir, names);
    RetainedProper(dir);
    ProperComponents(dir);
    if PathOf(ks) in list {
      PartsOfPath(ks);
      assert Reliable(PathOf(ks));
      assert forall i | 0 <= i < |Retained(dir)| :: ks[i] == Retained(dir)[i];
      RetainedWhole(dir);
    }
    if PathOf(cs) in list {
      PartsOfPath(cs);
      assert Reliable(PathOf(cs));
      assert forall i | 0 <= i < |Components(dir)| :: cs[i] == Components(dir)[i];
      RetainedWhole(dir);
    }
  }

  lemma LongPath(cs: seq<bytes>, names: seq<bytes>)
    requires ProperNames(cs) && ProperNames(names) && names != []
    ensures PathOf(cs + names) == PathOf(cs) + [SLASH] + Join(names, SLASH)
    ensures IsFilePath(PathOf(cs + names))
  {
    Together(cs, names);
    PartsOfPath(cs + names);
    JoinIsPath(names);
    PathOfAppend(cs, names);
    assert PathOf(cs) + [SLASH] + Join(names, SLASH) == PathOf(cs) + ([SLASH] + Join(names, SLASH));
  }

  lemma LongTail(cs: seq<bytes>, names: seq<bytes>)
    requires ProperNames(cs) && ProperNames(names) && names != [] && |Join(names, SLASH)| > FILE_ROOM
    requires |cs| <= MAX_DEPTH && forall i | 0 <= i < |cs| :: |cs[i]| <= DIR_ROOM
    ensures FullTail(PathOf(cs) + [SLASH] + Take(Join(names, SLASH), FILE_ROOM))
  {
    var full, m := PathOf(cs + names), PathOf(cs) + [SLASH] + Take(Join(names, SLASH), FILE_ROOM);
    LongPath(cs, names);
    assert m == full[..|m|];
    PrefixContinues(full, |m|);
    assert m[..CutAt(m)] == PathOf(cs);
    if cs != [] {
      PartsOfPath(cs);
    }
  }

  /** A relative name that is cut is matched by a full tail, so neither it nor the true path is listed. */
  lemma CutDecides(list: seq<bytes>, dir: Dentry, names: seq<bytes>)
    requires NoneRelativeCut(list) && Proper(dir) && names != [] && ProperNames(names)
    requires |Join(names, SLASH)| > FILE_ROOM
    ensures RelativeMatch(dir, Join(names, SLASH)) !in list && PathOf(Components(dir) + names) !in list
  {
    RetainedProper(dir);
    ProperComponents(dir);
    LongPath(Components(dir), names);
    LongPath(Retained(dir), names);
    LongTail(Retained(dir), names);
    assert RelativeCut(PathOf(Components(dir) + names)) && RelativeCut(RelativeMatch(dir, Join(names, SLASH)));
  }

  /**
   * Removals by relative name from a resolved directory are decided by the true path if and only if every entry is
   * reliable for writes and none is cut, or left over, by the room for the name.
   */
  lemma RelativeExactly(list: seq<bytes>)
    ensures ExactForRelative(list) <==> AllReliable(list) && NoneRelativeCut(list)
  {
    if AllReliable(list) && NoneRelativeCut(list) {
      forall dir: Dentry, names | Proper(dir) && names != [] && ProperNames(names)
        ensures RelativeMatch(dir, Join(names, SLASH)) in list <==> PathOf(Components(dir) + names) in list
      {
        if |Join(names, SLASH)| <= FILE_ROOM {
          UncutDecides(list, dir, names);
        } else {
          CutDecides(list, dir, names);
        }
      }
    } else if !AllReliable(list) {
      ExactExactly(list);
      if ExactForRelative(list) {
        RelativeImpliesExact(list);
      }
    } else {
      var i :| 0 <= i < |list| && RelativeCut(list[i]);
      RelativeCutInexact(list, list[i]);
    }
  }

  lemma {:induction false} JoinStart(names: seq<bytes>)
    requires names != [] && names[0] != []
    ensures Join(names, SLASH) != [] && Join(names, SLASH)[0] == names[0][0]
  {
  }

  /**
   * Removing a file by any relative name in simplest form: under reliable entries, and where the name or else the
   * entries keep to the room, it is accepted exactly when the file is listed by its true path and the name does not
   * start with '.'.
   */
  lemma ExactRelativeUnlink(st: Settings, task: Task, dir: Dentry, names: seq<bytes>)
    requires !st.verbose && AllReliable(st.confList)
    requires Proper(dir) && names != [] && ProperNames(names)
    requires |Join(names, SLASH)| <= FILE_ROOM || NoneRelativeCut(st.confList)
    requires task.tgid != 0 && !Skipped(st.skip, task.comm)
    ensures Accepts(st, UnlinkEvent(task, Some(dir), Join(names, SLASH))) <==>
            names[0][0] != DOT && PathOf(Components(dir) + names) in st.confList
  {
    assert names[0][0] in names[0];
    JoinStart(names);
    AcceptedByRelativeName(st, task, dir, Join(names, SLASH));
    if |Join(names, SLASH)| <= FILE_ROOM {
      UncutDecides(st.confList, dir, names);
    } else {
      CutDecides(st.confList, dir, names);
    }
  }

  /** Names that are not in simplest form are matched as they stand: with "/a/b" listed, from "/a" neither "./b" nor "c/../b" is. */
  lemma DottedNamesMissed(st: Settings, task: Task)
    requires st.confList == [PathOf([[0x61], [0x62]])] && !st.verbose
    requires task.tgid != 0 && !Skipped(st.skip, task.comm)
    ensures Exact(st.confList) && ExactForAbsolute(st.confList) && ExactForRelative(st.confList)
    ensures var dir := Node(Root, [0x61]);
            && !Accepts(st, UnlinkEvent(task, Some(dir), [DOT, SLASH, 0x62]))
            && !Accepts(st, UnlinkEvent(task, Some(dir), [0x63, SLASH, DOT, DOT, SLASH, 0x62]))
  {
    var listed, dir := PathOf([[0x61], [0x62]]), Node(Root, [0x61]);
    ShortPathsExact(st.confList);
    AcceptedByRelativeName(st, task, dir, [DOT, SLASH, 0x62]);
    var name: bytes := [0x63, SLASH, DOT, DOT, SLASH, 0x62];
    AcceptedByRelativeName(st, task, dir, name);
    assert |RelativeMatch(dir, name)| > 6 && |listed| == 4;
  }

  lemma ShortPathsExact(list: seq<bytes>)
    requires list == [PathOf([[0x61], [0x62]])]
    ensures Exact(list) && ExactForAbsolute(list) && ExactForRelative(list)
  {
    var cs: seq<bytes> := [[0x61], [0x62]];
    assert ProperName([0x61]) && ProperName([0x62]);
    PartsOfPath(cs);
    ShortEntry(PathOf(cs));
    ExactExactly(list);
    AbsoluteExactly(list);
    RelativeExactly(list);
  }

  // ------------------------------------------------------------------ all kinds together

  /** A reliable entry of less than 63 bytes leads no decision astray: not of writes or copies, nor of removals. */
  lemma ShortEntry(path: bytes)
    requires |path| < FILE_ROOM
    ensures !AbsoluteCut(path) && !RelativeCut(path)
  {
  }

  /** Additions keep removals exact under the tests above, as they keep writes exact. */
  lemma AddKeepsRemovalsExact(list: seq<bytes>, path: bytes)
    ensures ExactForAbsolute(list + [path]) <==> ExactForAbsolute(list) && !AbsoluteCut(path)
    ensures ExactForRelative(list + [path]) <==> ExactForRelative(list) && Reliable(path) && !RelativeCut(path)
  {
    var more := list + [path];
    AbsoluteExactly(list);
    AbsoluteExactly(more);
    RelativeExactly(list);
    RelativeExactly(more);
    assert more[|list|] == path;
    forall i | 0 <= i < |list| ensures more[i] == list[i] {
    }
  }
}

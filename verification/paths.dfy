/**
 * Rebuilding a path from the captured slots and bounding the depth of listed paths:
 * src/post.cpp, get_full_path (copied in src/exporter.cpp), get_dir_level and the list checks of load_config.
 */
module Paths {
  import opened Text
  import opened Capture

  // ------------------------------------------------------------------ get_full_path

  predicate Skippable(part: bytes) {
    part == [] || part == [SLASH]
  }

  function Kept(parts: seq<bytes>): seq<bytes> {
    if parts == [] then []
    else (if Skippable(parts[0]) then [] else [parts[0]]) + Kept(parts[1..])
  }

  function Rooted(path: bytes): bytes {
    if path != [] && path[0] != SLASH then [SLASH] + path else path
  }

  function Rebuilt(parts: seq<bytes>): bytes {
    Rooted(Join(Kept(parts), SLASH))
  }

  function Parts(e: Event): seq<bytes> {
    [e.dir4, e.dir3, e.dir2, e.dir1, e.filename]
  }

  function FullPath(e: Event): bytes {
    Rebuilt(Parts(e))
  }

  lemma {:induction false} KeptAppend(a: seq<bytes>, b: seq<bytes>)
    ensures Kept(a + b) == Kept(a) + Kept(b)
  {
    if a == [] {
      assert a + b == b;
    } else {
      assert (a + b)[1..] == a[1..] + b;
      KeptAppend(a[1..], b);
    }
  }

  lemma {:induction false} KeptNotSkippable(parts: seq<bytes>)
    ensures forall i | 0 <= i < |Kept(parts)| :: !Skippable(Kept(parts)[i])
  {
    if parts == [] {
    } else {
      KeptNotSkippable(parts[1..]);
    }
  }

  lemma JoinStep(kept: seq<bytes>, part: bytes)
    requires forall i | 0 <= i < |kept| :: kept[i] != []
    ensures Join(kept + [part], SLASH) ==
            if Join(kept, SLASH) == [] then part else Join(kept, SLASH) + [SLASH] + part
  {
    if kept == [] {
      assert kept + [part] == [part];
    } else {
      JoinSnoc(kept, part, SLASH);
    }
  }

  method GetFullPath(e: Event) returns (fullpath: bytes)
    ensures fullpath == FullPath(e)
  {
    var parts := [e.dir4, e.dir3, e.dir2, e.dir1, e.filename];
    fullpath := [];
    for i := 0 to |parts|
      invariant fullpath == Join(Kept(parts[..i]), SLASH)
    {
      var part := parts[i];
      assert parts[..i + 1] == parts[..i] + [part];
      KeptAppend(parts[..i], [part]);
      KeptNotSkippable(parts[..i]);
      assert Kept([part]) == if Skippable(part) then [] else [part];
      assert Kept(parts[..i + 1]) == if Skippable(part) then Kept(parts[..i]) else Kept(parts[..i]) + [part];
      if part == [] || part == [SLASH] {
        continue;
      }
      JoinStep(Kept(parts[..i]), part);
      if fullpath != [] {
        fullpath := fullpath + [SLASH];
      }
      fullpath := fullpath + part;
    }
    assert parts[..|parts|] == parts;
    if fullpath != [] && fullpath[0] != SLASH {
      fullpath := [SLASH] + fullpath;
    }
  }

  // ------------------------------------------------------------------ true paths

  /** The names from the top of the file system down to `d`, the root itself excluded. */
  function Components(d: Dentry): seq<bytes> {
    if d.Root? then [] else Components(d.parent) + [d.name]
  }

  function PathOf(cs: seq<bytes>): bytes {
    if cs == [] then [] else [SLASH] + cs[0] + PathOf(cs[1..])
  }

  function TruePath(d: Dentry): bytes {
    PathOf(Components(d))
  }

  function FromComponents(cs: seq<bytes>): Dentry {
    if cs == [] then Root else Node(FromComponents(cs[..|cs| - 1]), cs[|cs| - 1])
  }

  predicate ProperNames(cs: seq<bytes>) {
    forall i | 0 <= i < |cs| :: ProperName(cs[i])
  }

  lemma {:induction false} FromComponentsInverse(cs: seq<bytes>)
    ensures Components(FromComponents(cs)) == cs
    ensures ProperNames(cs) ==> Proper(FromComponents(cs))
  {
    if cs == [] {
    } else {
      FromComponentsInverse(cs[..|cs| - 1]);
    }
  }

  lemma {:induction false} ProperComponents(d: Dentry)
    requires Proper(d)
    ensures ProperNames(Components(d))
  {
    if d.Root? {
    } else {
      ProperComponents(d.parent);
    }
  }

  lemma {:induction false} PathOfAppend(a: seq<bytes>, b: seq<bytes>)
    ensures PathOf(a + b) == PathOf(a) + PathOf(b)
  {
    if a == [] {
      assert a + b == b;
    } else {
      assert (a + b)[1..] == a[1..] + b;
      PathOfAppend(a[1..], b);
    }
  }

  lemma {:induction false} JoinIsPath(cs: seq<bytes>)
    requires cs != []
    ensures [SLASH] + Join(cs, SLASH) == PathOf(cs)
  {
    if |cs| == 1 {
      assert PathOf(cs[1..]) == [];
    } else {
      JoinIsPath(cs[1..]);
    }
  }

  lemma {:induction false} PathSlashes(cs: seq<bytes>)
    requires forall i | 0 <= i < |cs| :: SLASH !in cs[i]
    ensures Count(PathOf(cs), SLASH) == |cs|
  {
    if cs == [] {
    } else {
      PathSlashes(cs[1..]);
      CountAbsent(cs[0], SLASH);
      CountAppend([SLASH], cs[0], SLASH);
      CountAppend([SLASH] + cs[0], PathOf(cs[1..]), SLASH);
    }
  }

  /** The first component of a path ends where the text before the next '/' does. */
  lemma HeadOfPath(c: bytes, rest: seq<bytes>)
    requires SLASH !in c
    ensures var s := c + PathOf(rest);
            var k := IndexOf(s, SLASH);
            c == if k == -1 then s else s[..k]
  {
    var s := c + PathOf(rest);
    if rest != [] {
      assert s[|c|] == PathOf(rest)[0] == SLASH;
      IndexOfAt(s, SLASH, |c|);
      assert s[..|c|] == c;
    } else {
      assert s == c;
    }
  }

  lemma HeadsAgree(c: bytes, rest: seq<bytes>, d: bytes, others: seq<bytes>)
    requires SLASH !in c && SLASH !in d
    requires c + PathOf(rest) == d + PathOf(others)
    ensures c == d && PathOf(rest) == PathOf(others)
  {
    HeadOfPath(c, rest);
    HeadOfPath(d, others);
    assert (c + PathOf(rest))[|c|..] == PathOf(rest);
    assert (d + PathOf(others))[|d|..] == PathOf(others);
  }

  lemma BehindSlash(cs: seq<bytes>)
    requires cs != []
    ensures PathOf(cs) != [] && PathOf(cs)[1..] == cs[0] + PathOf(cs[1..])
  {
  }

  /** Distinct files have distinct true paths. */
  lemma {:induction false} PathInjective(a: seq<bytes>, b: seq<bytes>)
    requires forall i | 0 <= i < |a| :: SLASH !in a[i]
    requires forall i | 0 <= i < |b| :: SLASH !in b[i]
    requires PathOf(a) == PathOf(b)
    ensures a == b
  {
    if a == [] || b == [] {
    } else {
      BehindSlash(a);
      BehindSlash(b);
      HeadsAgree(a[0], a[1..], b[0], b[1..]);
      PathInjective(a[1..], b[1..]);
      assert a == [a[0]] + a[1..] && b == [b[0]] + b[1..];
    }
  }

  /** The pieces between the slashes of an absolute path. */
  function FileParts(path: bytes): seq<bytes>
    requires path != []
  {
    Split(path[1..], SLASH)
  }

  /** Told from the text: absolute and without empty components, so that some file could have this path. */
  predicate IsFilePath(path: bytes) {
    path != [] && path[0] == SLASH && ProperNames(FileParts(path))
  }

  lemma PartsOfPath(cs: seq<bytes>)
    requires cs != [] && ProperNames(cs)
    ensures IsFilePath(PathOf(cs)) && FileParts(PathOf(cs)) == cs
  {
    JoinIsPath(cs);
    assert PathOf(cs)[1..] == Join(cs, SLASH);
    SplitJoin(cs, SLASH);
  }

  lemma PathOfParts(path: bytes)
    requires IsFilePath(path)
    ensures FileParts(path) != [] && PathOf(FileParts(path)) == path
  {
    JoinSplit(path[1..], SLASH);
    JoinIsPath(FileParts(path));
    assert path == [SLASH] + path[1..];
  }

  /** The text test holds of exactly the true paths of files. */
  lemma FilePathExactly(path: bytes)
    ensures IsFilePath(path) <==> exists d: Dentry :: Proper(d) && d.Node? && TruePath(d) == path
  {
    if IsFilePath(path) {
      PathOfParts(path);
      var d := FromComponents(FileParts(path));
      FromComponentsInverse(FileParts(path));
      assert Proper(d) && d.Node? && TruePath(d) == path;
    }
    if exists d: Dentry :: Proper(d) && d.Node? && TruePath(d) == path {
      var d: Dentry :| Proper(d) && d.Node? && TruePath(d) == path;
      ProperComponents(d);
      PartsOfPath(Components(d));
    }
  }

  // ------------------------------------------------------------------ get_dir_level and load_config

  /** Number of '/' in a path, one trailing '/' not counted; -1 for a path that is not absolute. */
  function DirLevel(path: bytes): int {
    if path == [] || path[0] != SLASH then -1
    else Count(if path[|path| - 1] == SLASH then path[..|path| - 1] else path, SLASH)
  }

  const DEFAULT_DIR_LEVEL := 4

  function EffectiveLevel(configured: int): int {
    if configured <= 0 then DEFAULT_DIR_LEVEL else configured
  }

  predicate AcceptedList(list: seq<bytes>, configured: int) {
    list != [] && forall i | 0 <= i < |list| :: 0 <= DirLevel(list[i]) <= EffectiveLevel(configured)
  }

  /** The checks load_config makes on "config_list" against "max_dir_level". */
  method CheckList(list: seq<bytes>, configured: int) returns (ok: bool, maxDirLevel: int)
    ensures ok <==> AcceptedList(list, configured)
    ensures list != [] ==> maxDirLevel == if configured > 0 then configured else 4
    ensures ok <==> list != [] && forall i | 0 <= i < |list| ::
                      list[i] != [] && list[i][0] == 0x2F && DirLevel(list[i]) <= maxDirLevel
  {
    maxDirLevel := configured;
    if list == [] {
      return false, maxDirLevel;
    }
    if maxDirLevel <= 0 {
      maxDirLevel := DEFAULT_DIR_LEVEL;
    }
    for i := 0 to |list|
      invariant forall j | 0 <= j < i :: 0 <= DirLevel(list[j]) <= maxDirLevel
    {
      var level := DirLevel(list[i]);
      if level < 0 {
        return false, maxDirLevel;
      }
      if level > maxDirLevel {
        return false, maxDirLevel;
      }
    }
    return true, maxDirLevel;
  }

  lemma {:induction false} PathEnd(cs: seq<bytes>)
    requires cs != [] && ProperNames(cs)
    ensures |PathOf(cs)| >= 2 && PathOf(cs)[0] == SLASH && PathOf(cs)[|PathOf(cs)| - 1] != SLASH
  {
    if |cs| > 1 {
      PathEnd(cs[1..]);
    } else {
      assert PathOf(cs[1..]) == [];
      assert cs[0][|cs[0]| - 1] in cs[0];
    }
  }

  /** The level of a file's path is its number of components. */
  lemma LevelOfPath(cs: seq<bytes>)
    requires cs != [] && ProperNames(cs)
    ensures DirLevel(PathOf(cs)) == |cs|
  {
    PathEnd(cs);
    PathSlashes(cs);
  }

  /** A closing '/' does not count, the top directory has level 0, and a path that is not absolute has none. */
  lemma OtherLevels(cs: seq<bytes>, path: bytes)
    requires ProperNames(cs)
    ensures DirLevel(PathOf(cs) + [SLASH]) == |cs|
    ensures DirLevel(path) < 0 <==> path == [] || path[0] != SLASH
    ensures DirLevel(path) < 0 ==> DirLevel(path) == -1
  {
    var closed := PathOf(cs) + [SLASH];
    PathSlashes(cs);
    assert closed[..|closed| - 1] == PathOf(cs);
    if cs != [] {
      PathEnd(cs);
    }
  }

  /** With max_dir_level missing or not positive, paths of up to four components are accepted and no deeper ones. */
  lemma AcceptedLevels(cs: seq<bytes>, configured: int)
    requires cs != [] && ProperNames(cs)
    ensures AcceptedList([PathOf(cs)], configured) <==> |cs| <= if configured > 0 then configured else 4
  {
    LevelOfPath(cs);
    assert [PathOf(cs)][0] == PathOf(cs);
  }

  // ------------------------------------------------------------------ the slots hold a suffix of the path

  function Suffix(cs: seq<bytes>, n: nat): seq<bytes> {
    if |cs| <= n then cs else cs[|cs| - n..]
  }

  function Truncated(cs: seq<bytes>): seq<bytes> {
    seq(|cs|, i requires 0 <= i < |cs| => ReadStr(DIR_ROOM, cs[i]))
  }

  function Reverse(w: seq<bytes>): seq<bytes> {
    if w == [] then [] else Reverse(w[1..]) + [w[0]]
  }

  lemma {:induction false} ReverseAppend(a: seq<bytes>, b: seq<bytes>)
    ensures Reverse(a + b) == Reverse(b) + Reverse(a)
  {
    if a == [] {
      assert a + b == b;
    } else {
      assert (a + b)[1..] == a[1..] + b;
      ReverseAppend(a[1..], b);
    }
  }

  lemma SuffixStep(cs: seq<bytes>, name: bytes, n: nat)
    requires n > 0
    ensures Suffix(cs + [name], n) == Suffix(cs, n - 1) + [name]
    ensures Truncated(Suffix(cs + [name], n)) == Truncated(Suffix(cs, n - 1)) + [ReadStr(DIR_ROOM, name)]
  {
  }

  lemma PrefixKept(name: bytes, room: nat)
    requires ProperName(name) && room > 0
    ensures Kept([ReadStr(room, name)]) == [ReadStr(room, name)]
  {
    assert ReadStr(room, name)[0] == name[0];
    assert name[0] in name;
  }

  /** Read from the far end, a walk of any length holds the last directories of the path and skips the root. */
  lemma {:induction false} KeptOfWalk(d: Dentry, n: nat)
    requires Proper(d)
    ensures Kept(Reverse(ChainWalk(d, n))) == Truncated(Suffix(Components(d), n))
  {
    if n == 0 {
    } else if d.Root? {
      assert ReadStr(DIR_ROOM, [SLASH]) == [SLASH];
      assert Reverse([[SLASH]]) == [[SLASH]];
    } else {
      var rest, name := ChainWalk(d.parent, n - 1), ReadStr(DIR_ROOM, d.name);
      KeptOfWalk(d.parent, n - 1);
      assert ([name] + rest)[1..] == rest;
      assert Reverse([name] + rest) == Reverse(rest) + [name];
      KeptAppend(Reverse(rest), [name]);
      PrefixKept(d.name, DIR_ROOM);
      SuffixStep(Components(d.parent), d.name, n);
    }
  }

  lemma ReverseFour(a: bytes, b: bytes, c: bytes, d: bytes)
    ensures Reverse([a, b, c, d]) == [d, c, b, a]
  {
    ReverseAppend([a], [b, c, d]);
    ReverseAppend([b], [c, d]);
    ReverseAppend([c], [d]);
    assert [a, b, c, d] == [a] + [b, c, d] && [b, c, d] == [b] + [c, d] && [c, d] == [c] + [d];
    assert Reverse([a]) == [a] && Reverse([b]) == [b] && Reverse([c]) == [c] && Reverse([d]) == [d];
  }

  lemma KeptPadded(w: seq<bytes>, blanks: seq<bytes>)
    requires forall i | 0 <= i < |blanks| :: blanks[i] == []
    ensures Kept(Reverse(w + blanks)) == Kept(Reverse(w))
  {
    ReverseAppend(w, blanks);
    KeptOfBlanks(blanks);
    KeptAppend(Reverse(blanks), Reverse(w));
  }

  lemma PartsOfSlots(e: Event)
    ensures Parts(e) == Reverse([e.dir1, e.dir2, e.dir3, e.dir4]) + [e.filename]
  {
    ReverseFour(e.dir1, e.dir2, e.dir3, e.dir4);
  }

  lemma KeptOfSlots(e: Event, w: seq<bytes>)
    requires |w| <= 4 && [e.dir1, e.dir2, e.dir3, e.dir4] == Filled(BLANK, w)
    ensures Kept(Parts(e)) == Kept(Reverse(w)) + Kept([e.filename])
  {
    var blanks := BLANK[|w|..];
    assert Parts(e) == Reverse(w + blanks) + [e.filename] by {
      PartsOfSlots(e);
    }
    assert Kept(Reverse(w + blanks)) == Kept(Reverse(w)) by {
      KeptPadded(w, blanks);
    }
    KeptAppend(Reverse(w + blanks), [e.filename]);
  }

  lemma {:induction false} KeptOfBlanks(blanks: seq<bytes>)
    requires forall i | 0 <= i < |blanks| :: blanks[i] == []
    ensures Kept(Reverse(blanks)) == []
  {
    if blanks == [] {
    } else {
      KeptOfBlanks(blanks[1..]);
      KeptAppend(Reverse(blanks[1..]), [blanks[0]]);
    }
  }

  lemma RootedJoin(cs: seq<bytes>)
    requires cs != [] && cs[0] != [] && cs[0][0] != SLASH
    ensures Rooted(Join(cs, SLASH)) == PathOf(cs)
  {
    JoinIsPath(cs);
  }

  /** What the slots and the file name retain of the last five components of a path. */
  function Captured(cs: seq<bytes>): seq<bytes>
    requires cs != []
  {
    var last := Suffix(cs, MAX_DEPTH + 1);
    Truncated(last[..|last| - 1]) + [ReadStr(FILE_ROOM, last[|last| - 1])]
  }

  lemma CapturedProper(cs: seq<bytes>)
    requires cs != [] && ProperNames(cs)
    ensures ProperNames(Captured(cs))
  {
    forall i | 0 <= i < |Captured(cs)| ensures ProperName(Captured(cs)[i]) {
      var j := |cs| - |Captured(cs)| + i;
      assert ProperName(cs[j]);
      assert Captured(cs)[i] <= cs[j] && (|Captured(cs)[i]| >= DIR_ROOM || Captured(cs)[i] == cs[j]);
      PrefixProper(Captured(cs)[i], cs[j]);
    }
  }

  lemma PrefixProper(s: bytes, name: bytes)
    requires ProperName(name) && s <= name && (|s| > 2 || s == name)
    ensures ProperName(s)
  {
    forall i | 0 <= i < |s| ensures s[i] in name {
      assert s[i] == name[i];
    }
  }

  /**
   * For a file at any depth and with names of any length, the path user space
   * rebuilds is made of the last five components, each cut to its slot.
   */
  lemma RebuiltPath(task: Task, ino: nat, d: Dentry, flag: Syscall)
    requires Proper(d) && d.Node?
    ensures FullPath(FileEvent(task, ino, d, flag)) == PathOf(Captured(Components(d)))
  {
    var e, cs := FileEvent(task, ino, d, flag), Components(d);
    var w := ParentWalk(d, MAX_DEPTH);
    WalksAgree(d, MAX_DEPTH);
    assert [e.dir1, e.dir2, e.dir3, e.dir4] == Filled(BLANK, w);
    KeptOfSlots(e, w);
    KeptOfWalk(d.parent, MAX_DEPTH);
    PrefixKept(d.name, FILE_ROOM);
    CapturedStep(Components(d.parent), d.name);
    assert Kept(Parts(e)) == Captured(cs);
    ProperComponents(d);
    CapturedProper(cs);
    assert Captured(cs)[0][0] in Captured(cs)[0];
    RootedJoin(Captured(cs));
  }

  lemma CapturedStep(dirs: seq<bytes>, name: bytes)
    ensures Captured(dirs + [name]) == Truncated(Suffix(dirs, MAX_DEPTH)) + [ReadStr(FILE_ROOM, name)]
  {
    SuffixStep(dirs, name, MAX_DEPTH + 1);
    var last := Suffix(dirs + [name], MAX_DEPTH + 1);
    assert last[..|last| - 1] == Suffix(dirs, MAX_DEPTH);
  }
}

/** Processes that are not reported: src/post.cpp, match_process_name. */
module SkipList {
  import opened Text

  /** Length to which the kernel cuts a task name, hence the length that is compared. */
  const COMPARED: nat := 15

  /** The part of a command after its last '/'. */
  function Basename(cmd: bytes): bytes {
    cmd[LastIndexOf(cmd, SLASH) + 1..]
  }

  predicate SameProcess(entry: bytes, base: bytes) {
    Take(entry, COMPARED) == Take(base, COMPARED)
  }

  ghost predicate Skipped(skip: seq<bytes>, cmd: bytes) {
    cmd != [] && exists i | 0 <= i < |skip| :: SameProcess(skip[i], Basename(cmd))
  }

  lemma ShortComparison(entry: bytes, base: bytes)
    requires |entry| <= COMPARED && |base| <= COMPARED
    ensures SameProcess(entry, base) <==> entry == base
  {
    assert Take(entry, COMPARED) == entry;
    assert Take(base, COMPARED) == base;
  }

  /** Equally long up to 15 bytes, and alike byte by byte. */
  predicate AgreeUpTo15(a: bytes, b: bytes) {
    && (|a| == |b| || (|a| >= 15 && |b| >= 15))
    && forall i | 0 <= i < 15 && i < |a| && i < |b| :: a[i] == b[i]
  }

  /** Long names are compared by their first 15 bytes, short ones as a whole. */
  lemma SameProcessExactly(entry: bytes, base: bytes)
    ensures SameProcess(entry, base) <==> AgreeUpTo15(entry, base)
  {
    var a, b := Take(entry, COMPARED), Take(base, COMPARED);
    if SameProcess(entry, base) {
      forall i | 0 <= i < 15 && i < |entry| && i < |base| ensures entry[i] == base[i] {
        assert a[i] == entry[i] && b[i] == base[i];
      }
    }
    if AgreeUpTo15(entry, base) {
      assert |a| == |b| && forall i | 0 <= i < |a| :: a[i] == entry[i] && b[i] == base[i];
    }
  }

  /** Both comparison branches of the loop decide the same relation. */
  method MatchProcessName(skip: seq<bytes>, cmd: bytes) returns (found: bool)
    ensures found <==> Skipped(skip, cmd)
    ensures found <==> cmd != [] && exists i :: 0 <= i < |skip| && AgreeUpTo15(skip[i], Basename(cmd))
  {
    forall i | 0 <= i < |skip| ensures SameProcess(skip[i], Basename(cmd)) <==> AgreeUpTo15(skip[i], Basename(cmd)) {
      SameProcessExactly(skip[i], Basename(cmd));
    }
    if skip == [] || cmd == [] {
      return false;
    }
    var base := Basename(cmd);
    for i := 0 to |skip|
      invariant forall j | 0 <= j < i :: !SameProcess(skip[j], base)
    {
      var entry := skip[i];
      if |entry| > COMPARED || |base| > COMPARED {
        if Take(entry, COMPARED) == Take(base, COMPARED) {
          assert SameProcess(skip[i], base);
          return true;
        }
      } else {
        ShortComparison(entry, base);
        if entry == base {
          assert SameProcess(skip[i], base);
          return true;
        }
      }
    }
    return false;
  }

  /** What is compared is the text behind the last '/', however the command is prefixed. */
  lemma BasenameOf(prefix: bytes, base: bytes)
    requires SLASH !in base
    ensures Basename(prefix + [SLASH] + base) == base && Basename(base) == base
  {
    var cmd := prefix + [SLASH] + base;
    LastIndexOfAt(cmd, SLASH, |prefix|);
    assert cmd[|prefix| + 1..] == base;
  }
}

/** Threshold filter, log file and rotation: src/logger.cpp. */
module Logging {
  import opened Text
  import SkipList

  datatype Level = INFO | WARN | ERROR | DEBUG

  function ParseLevel(s: string): Level {
    if s == "warn" || s == "WARN" || s == "Warn" then WARN
    else if s == "error" || s == "ERROR" || s == "Error" then ERROR
    else if s == "debug" || s == "DEBUG" || s == "Debug" then DEBUG
    else INFO
  }

  function SeverityRank(level: Level): nat {
    match level
    case DEBUG => 0
    case INFO => 1
    case WARN => 2
    case ERROR => 3
  }

  function LevelName(level: Level): bytes {
    match level
    case INFO => Ascii("INFO")
    case WARN => Ascii("WARN")
    case ERROR => Ascii("ERROR")
    case DEBUG => Ascii("DEBUG")
  }

  /** The line Logger::log formats; `stamp` is the printed local time. */
  function LineText(level: Level, msg: bytes, file: Option<bytes>, line: nat, stamp: bytes): bytes {
    stamp + Ascii(" [") + LevelName(level) + Ascii("] ")
    + (if file.None? then Ascii("unknown") else SkipList.Basename(file.value)) + Ascii(":") + Dec(line)
    + Ascii(" ") + msg + Ascii("\n")
  }

  /**
   * One call of Logger::log: its level and formatted line, the second of local time a rotation would be named
   * after, and whether the machine would let renaming and reopening succeed.
   */
  datatype Call = Call(level: Level, line: bytes, second: nat, renameOk: bool, openOk: bool)

  /**
   * The log file (None when it does not exist), its backups by the second in their name, whether the stream
   * is open, and what went to standard error instead.
   */
  datatype Store = Store(live: Option<bytes>, backups: map<nat, bytes>, isOpen: bool, stderr: bytes)

  /** std::ofstream::open in append mode, creating the file. */
  function Opened(s: Store, ok: bool): Store {
    if ok then s.(live := Some(if s.live.Some? then s.live.value else []), isOpen := true) else s.(isOpen := false)
  }

  predicate ShouldRotate(s: Store, max: nat) {
    max != 0 && s.live.Some? && |s.live.value| >= max
  }

  /** Renaming replaces a backup already carrying the name. */
  function Rotated(s: Store, c: Call): Store
    requires s.live.Some?
  {
    var t := if c.renameOk then s.(live := None, backups := s.backups[c.second := s.live.value]) else s;
    Opened(t, c.openOk)
  }

  function Written(s: Store, out: bytes): Store {
    if s.isOpen && s.live.Some? then s.(live := Some(s.live.value + out)) else s.(stderr := s.stderr + out)
  }

  predicate Admits(threshold: Level, c: Call) {
    SeverityRank(c.level) >= SeverityRank(threshold)
  }

  function Logged(s: Store, threshold: Level, max: nat, c: Call): Store {
    if !Admits(threshold, c) then s
    else Written(if ShouldRotate(s, max) then Rotated(s, c) else s, c.line)
  }

  /** Levels are ordered by severity, not by their position in the enumeration. */
  lemma AdmittedLevels(c: Call)
    ensures Admits(DEBUG, c)
    ensures Admits(INFO, c) <==> c.level != DEBUG
    ensures Admits(WARN, c) <==> c.level == WARN || c.level == ERROR
    ensures Admits(ERROR, c) <==> c.level == ERROR
  {
  }

  /** The three spellings of a level; anything else means INFO. */
  lemma ParsedLevels(s: string)
    ensures ParseLevel(s) == WARN <==> s in {"warn", "WARN", "Warn"}
    ensures ParseLevel(s) == ERROR <==> s in {"error", "ERROR", "Error"}
    ensures ParseLevel(s) == DEBUG <==> s in {"debug", "DEBUG", "Debug"}
  {
  }

  /** A line is framed by its stamp and a line break, and carries level, place and message in this order. */
  lemma LineParts(level: Level, msg: bytes, file: Option<bytes>, line: nat, stamp: bytes)
    ensures var place := if file.Some? then SkipList.Basename(file.value) else Ascii("unknown");
            var name := match level
                        case DEBUG => Ascii("DEBUG") case INFO => Ascii("INFO")
                        case WARN => Ascii("WARN") case ERROR => Ascii("ERROR");
            LineText(level, msg, file, line, stamp) ==
            stamp + [0x20, 0x5B] + name + [0x5D, 0x20] + place + [0x3A] + Dec(line) + [0x20] + msg + [0x0A]
  {
    assert Ascii(" [") == [0x20, 0x5B] && Ascii("] ") == [0x5D, 0x20];
    assert Ascii(":") == [0x3A] && Ascii(" ") == [0x20] && Ascii("\n") == [0x0A];
  }

  function LiveText(s: Store): bytes {
    if s.live.Some? then s.live.value else []
  }

  /**
   * Whatever fails to open or rename: a line at or above the threshold is appended once, to the file if it is open
   * and else to standard error, and a line below it changes nothing.
   */
  lemma LineLandsOnce(s: Store, threshold: Level, max: nat, c: Call)
    requires s.isOpen ==> s.live.Some?
    ensures var t := Logged(s, threshold, max, c);
            && (t.isOpen ==> t.live.Some?)
            && if !Admits(threshold, c) then t == s
               else if t.isOpen
               then t.stderr == s.stderr && (t.live == Some(LiveText(s) + c.line)
                                             || (t.live == Some(c.line) && t.backups == s.backups[c.second := LiveText(s)]))
               else t.stderr == s.stderr + c.line
                    && (t.live == s.live || (t.live == None && t.backups == s.backups[c.second := LiveText(s)]))
  {
    assert [] + c.line == c.line;
  }

  /** An open stream belongs to an existing file. */
  predicate Attached(s: Store) {
    s.isOpen && s.live.Some?
  }

  // ------------------------------------------------------------------ the logger object

  class Logger {
    var threshold: Level
    var maxSize: nat
    var isOpen: bool
    var live: Option<bytes>
    var backups: map<nat, bytes>
    var stderr: bytes

    function Snapshot(): Store
      reads this
    {
      Store(live, backups, isOpen, stderr)
    }

    constructor (live: Option<bytes>, backups: map<nat, bytes>)
      ensures Snapshot() == Store(live, backups, false, []) && threshold == INFO && maxSize == 100 * 1024 * 1024
    {
      threshold, maxSize, isOpen, stderr := INFO, 100 * 1024 * 1024, false, [];
      this.live, this.backups := live, backups;
    }

    method Open(ok: bool)
      modifies `live, `isOpen
      ensures Snapshot() == Opened(old(Snapshot()), ok)
    {
      if ok {
        if live.None? {
          live := Some([]);
        }
        isOpen := true;
      } else {
        isOpen := false;
      }
    }

    /** Logger::init on the same path: an open stream is closed before it is reopened. */
    method Init(level: string, maxSize: nat, openOk: bool)
      modifies this
      ensures Snapshot() == Opened(old(Snapshot()), openOk)
      ensures threshold == ParseLevel(level) && this.maxSize == maxSize
    {
      threshold := ParseLevel(level);
      this.maxSize := maxSize;
      if isOpen {
        isOpen := false;
      }
      Open(openOk);
    }

    method RotateLogFile(c: Call)
      requires live.Some?
      modifies `live, `isOpen, `backups
      ensures Snapshot() == Rotated(old(Snapshot()), c)
    {
      if isOpen {
        isOpen := false;
      }
      if c.renameOk {
        backups := backups[c.second := live.value];
        live := None;
      }
      Open(c.openOk);
    }

    method Log(level: Level, msg: bytes, file: Option<bytes>, line: nat, stamp: bytes,
               second: nat, renameOk: bool, openOk: bool)
      modifies `live, `isOpen, `backups, `stderr
      ensures var c := Call(level, LineText(level, msg, file, line, stamp), second, renameOk, openOk);
              Snapshot() == Logged(old(Snapshot()), threshold, maxSize, c)
    {
      if SeverityRank(level) < SeverityRank(threshold) {
        return;
      }
      var c := Call(level, LineText(level, msg, file, line, stamp), second, renameOk, openOk);
      if ShouldRotate(Snapshot(), maxSize) {
        RotateLogFile(c);
      }
      if isOpen && live.Some? {
        live := Some(live.value + c.line);
      } else {
        stderr := stderr + c.line;
      }
    }
  }

  // ------------------------------------------------------------------ runs

  /** The store after the first n calls. */
  function After(s: Store, threshold: Level, max: nat, calls: seq<Call>, n: nat): Store
    requires n <= |calls|
  {
    if n == 0 then s else Logged(After(s, threshold, max, calls, n - 1), threshold, max, calls[n - 1])
  }

  /** The lines of the first n calls that are at or above the threshold, in order. */
  function AdmittedText(threshold: Level, calls: seq<Call>, n: nat): bytes
    requires n <= |calls|
  {
    if n == 0 then []
    else AdmittedText(threshold, calls, n - 1) + (if Admits(threshold, calls[n - 1]) then calls[n - 1].line else [])
  }

  /** The successful rotations so far: the second of each and the contents it set aside, whether or not they survive. */
  datatype History = Empty | Later(front: History, second: nat, content: bytes)

  predicate Rotates(s: Store, threshold: Level, max: nat, c: Call) {
    Admits(threshold, c) && ShouldRotate(s, max) && c.renameOk
  }

  function HistoryAfter(h: History, s: Store, threshold: Level, max: nat, calls: seq<Call>, n: nat): History
    requires n <= |calls|
  {
    if n == 0 then h
    else
      var front, t := HistoryAfter(h, s, threshold, max, calls, n - 1), After(s, threshold, max, calls, n - 1);
      if Rotates(t, threshold, max, calls[n - 1]) then Later(front, calls[n - 1].second, t.live.value) else front
  }

  function Contents(h: History): bytes {
    match h case Empty => [] case Later(front, _, content) => Contents(front) + content
  }

  /** The backups a history leaves behind: the last one of each second. */
  function Surviving(h: History): map<nat, bytes> {
    match h case Empty => map[] case Later(front, second, content) => Surviving(front)[second := content]
  }

  predicate OpensSucceed(calls: seq<Call>) {
    forall i | 0 <= i < |calls| :: calls[i].openOk
  }

  function AdmittedLine(threshold: Level, c: Call): bytes {
    if Admits(threshold, c) then c.line else []
  }

  lemma LoggedAttached(s: Store, threshold: Level, max: nat, c: Call)
    requires Attached(s) && c.openOk
    ensures var t := Logged(s, threshold, max, c);
            && Attached(t) && t.stderr == s.stderr
            && if Rotates(s, threshold, max, c)
               then t.live.value == c.line && t.backups == s.backups[c.second := s.live.value]
               else t.live.value == s.live.value + AdmittedLine(threshold, c) && t.backups == s.backups
  {
  }

  /** What has been set aside, followed by the log file, is always the initial content and every admitted line, in order. */
  lemma {:induction false} NothingSkipped(s: Store, threshold: Level, max: nat, calls: seq<Call>, n: nat, h: History)
    requires Attached(s) && OpensSucceed(calls) && s.backups == Surviving(h) && n <= |calls|
    ensures var t, k := After(s, threshold, max, calls, n), HistoryAfter(h, s, threshold, max, calls, n);
            && Attached(t) && t.stderr == s.stderr
            && t.backups == Surviving(k)
            && Contents(k) + t.live.value == Contents(h) + s.live.value + AdmittedText(threshold, calls, n)
  {
    if n == 0 {
      assert Contents(h) + s.live.value + [] == Contents(h) + s.live.value;
    } else {
      NothingSkipped(s, threshold, max, calls, n - 1, h);
      var c, m := calls[n - 1], After(s, threshold, max, calls, n - 1);
      var k, line := HistoryAfter(h, s, threshold, max, calls, n - 1), AdmittedLine(threshold, c);
      LoggedAttached(m, threshold, max, c);
      Appended(Contents(k), m.live.value, Contents(h) + s.live.value, AdmittedText(threshold, calls, n - 1), line);
    }
  }

  lemma Appended(a: bytes, b: bytes, c: bytes, d: bytes, e: bytes)
    requires a + b == c + d
    ensures a + b + e == c + (d + e)
    ensures a + (b + e) == c + (d + e)
  {
    assert a + (b + e) == (a + b) + e;
    assert c + (d + e) == (c + d) + e;
  }

  // ------------------------------------------------------------------ backups in time order

  predicate Increasing(ks: seq<nat>) {
    forall i, j | 0 <= i < j < |ks| :: ks[i] < ks[j]
  }

  /** `ks` lists the backups in the order of their names, oldest first. */
  predicate Lists(ks: seq<nat>, backups: map<nat, bytes>) {
    Increasing(ks) && (forall i | 0 <= i < |ks| :: ks[i] in backups) && (forall k | k in backups :: k in ks)
  }

  function InOrder(ks: seq<nat>, backups: map<nat, bytes>, n: nat): bytes
    requires n <= |ks| && forall i | 0 <= i < |ks| :: ks[i] in backups
  {
    if n == 0 then [] else InOrder(ks, backups, n - 1) + backups[ks[n - 1]]
  }

  /** The backups one after another. */
  function BackupText(ks: seq<nat>, backups: map<nat, bytes>): bytes
    requires forall i | 0 <= i < |ks| :: ks[i] in backups
  {
    InOrder(ks, backups, |ks|)
  }

  /** Local time, by which backups are named, is not set back between rotations. */
  predicate ClockMonotone(h: History) {
    h.Later? ==> (h.front.Later? ==> h.front.second <= h.second) && ClockMonotone(h.front)
  }

  predicate Occurs(h: History, second: nat) {
    h.Later? && (h.second == second || Occurs(h.front, second))
  }

  predicate SameSecondTwice(h: History) {
    h.Later? && (Occurs(h.front, h.second) || SameSecondTwice(h.front))
  }

  predicate NoneEmpty(h: History) {
    h.Later? ==> h.content != [] && NoneEmpty(h.front)
  }

  /** Over a monotone clock only the previous rotation can share a second with the next. */
  lemma {:induction false} OccursLast(h: History, second: nat)
    requires ClockMonotone(h) && (h.Later? ==> h.second <= second)
    ensures Occurs(h, second) <==> h.Later? && h.second == second
  {
    if h.Empty? || h.second == second {
    } else {
      OccursLast(h.front, second);
    }
  }

  /** The seconds of a history, each once. */
  function Seconds(h: History): seq<nat> {
    match h
    case Empty => []
    case Later(front, second, _) =>
      if front.Later? && front.second == second then Seconds(front) else Seconds(front) + [second]
  }

  lemma ListsMore(ks: seq<nat>, backups: map<nat, bytes>, second: nat, content: bytes)
    requires Lists(ks, backups) && (ks != [] ==> ks[|ks| - 1] < second)
    ensures Lists(ks + [second], backups[second := content])
  {
    forall i | 0 <= i < |ks| ensures ks[i] < second {
      assert ks[i] <= ks[|ks| - 1];
    }
    assert (ks + [second])[|ks|] == second;
    assert forall k | k in backups :: k in ks && k in ks + [second];
  }

  lemma ListsReplaced(ks: seq<nat>, backups: map<nat, bytes>, second: nat, content: bytes)
    requires Lists(ks, backups) && second in ks
    ensures Lists(ks, backups[second := content])
  {
  }

  lemma {:induction false} SecondsList(h: History)
    requires ClockMonotone(h)
    ensures Lists(Seconds(h), Surviving(h))
    ensures h.Later? ==> Seconds(h) != [] && Seconds(h)[|Seconds(h)| - 1] == h.second
    ensures h.Empty? ==> Seconds(h) == []
  {
    if h.Empty? {
    } else {
      SecondsList(h.front);
      if h.front.Later? && h.front.second == h.second {
        ListsReplaced(Seconds(h.front), Surviving(h.front), h.second, h.content);
      } else {
        ListsMore(Seconds(h.front), Surviving(h.front), h.second, h.content);
      }
    }
  }

  lemma {:induction false} InOrderSame(ks: seq<nat>, a: map<nat, bytes>, ls: seq<nat>, b: map<nat, bytes>, n: nat)
    requires n <= |ks| && n <= |ls|
    requires forall i | 0 <= i < |ks| :: ks[i] in a
    requires forall i | 0 <= i < |ls| :: ls[i] in b
    requires forall i | 0 <= i < n :: ks[i] == ls[i] && a[ks[i]] == b[ls[i]]
    ensures InOrder(ks, a, n) == InOrder(ls, b, n)
  {
    if n == 0 {
    } else {
      InOrderSame(ks, a, ls, b, n - 1);
    }
  }

  /** What the history's backups hold, read in time order. */
  function KeptText(h: History): bytes
    requires Lists(Seconds(h), Surviving(h))
  {
    BackupText(Seconds(h), Surviving(h))
  }

  lemma BackupAdded(ks: seq<nat>, a: map<nat, bytes>, last: nat, content: bytes)
    requires forall i | 0 <= i < |ks| :: ks[i] in a && ks[i] != last
    ensures forall i | 0 <= i < |ks + [last]| :: (ks + [last])[i] in a[last := content]
    ensures BackupText(ks + [last], a[last := content]) == BackupText(ks, a) + content
  {
    InOrderSame(ks, a, ks + [last], a[last := content], |ks|);
  }

  /** A rotation in a new second adds its contents to what the backups hold. */
  lemma NewSecond(h: History)
    requires h.Later? && ClockMonotone(h) && (h.front.Later? ==> h.front.second != h.second)
    ensures Lists(Seconds(h.front), Surviving(h.front)) && Lists(Seconds(h), Surviving(h))
    ensures KeptText(h) == KeptText(h.front) + h.content
  {
    SecondsList(h.front);
    SecondsList(h);
    var ks := Seconds(h.front);
    assert forall i | 0 <= i < |ks| :: ks[i] != h.second by {
      assert Seconds(h) == ks + [h.second];
      assert forall i | 0 <= i < |ks| :: Seconds(h)[i] < Seconds(h)[|ks|];
    }
    BackupAdded(ks, Surviving(h.front), h.second, h.content);
  }

  lemma LastReplaced(ks: seq<nat>, a: map<nat, bytes>, last: nat, content: bytes)
    requires ks != [] && Increasing(ks) && ks[|ks| - 1] == last
    requires forall i | 0 <= i < |ks| :: ks[i] in a
    ensures |BackupText(ks, a[last := content])| + |a[last]| == |BackupText(ks, a)| + |content|
  {
    var n := |ks| - 1;
    InOrderSame(ks, a, ks, a[last := content], n);
  }

  /** A rotation in the second of the previous one overwrites that backup. */
  lemma SameSecond(h: History)
    requires h.Later? && ClockMonotone(h) && h.front.Later? && h.front.second == h.second
    ensures Lists(Seconds(h.front), Surviving(h.front)) && Lists(Seconds(h), Surviving(h))
    ensures |KeptText(h)| + |h.front.content| == |KeptText(h.front)| + |h.content|
  {
    SecondsList(h.front);
    SecondsList(h);
    LastReplaced(Seconds(h), Surviving(h.front), h.second, h.content);
  }

  /** With distinct seconds the backups hold everything set aside; each collision loses a whole backup. */
  lemma {:induction false} SurvivingText(h: History)
    requires ClockMonotone(h) && NoneEmpty(h)
    ensures Lists(Seconds(h), Surviving(h))
    ensures !SameSecondTwice(h) ==> KeptText(h) == Contents(h)
    ensures |KeptText(h)| <= |Contents(h)|
    ensures SameSecondTwice(h) ==> |KeptText(h)| < |Contents(h)|
  {
    SecondsList(h);
    if h.Empty? {
    } else {
      SurvivingText(h.front);
      OccursLast(h.front, h.second);
      if h.front.Later? && h.front.second == h.second {
        SameSecond(h);
      } else {
        NewSecond(h);
      }
    }
  }

  lemma {:induction false} PrefixAgrees(a: seq<nat>, b: seq<nat>, n: nat)
    requires n <= |a| && Increasing(a) && Increasing(b)
    requires forall i | 0 <= i < |a| :: a[i] in b
    requires forall i | 0 <= i < |b| :: b[i] in a
    ensures n <= |b| && forall i | 0 <= i < n :: a[i] == b[i]
  {
    if n == 0 {
    } else {
      PrefixAgrees(a, b, n - 1);
      var j := NotBefore(a, b, n);
      var i := NotBefore(b, a, n);
      assert b[n - 1] <= b[j] && a[n - 1] <= a[i];
    }
  }

  /** Where lists agree on their first n - 1 elements, the next element of one lies no earlier in the other. */
  lemma NotBefore(a: seq<nat>, b: seq<nat>, n: nat) returns (j: nat)
    requires 0 < n <= |a| && n - 1 <= |b| && Increasing(a) && a[n - 1] in b
    requires forall i | 0 <= i < n - 1 :: a[i] == b[i]
    ensures n - 1 <= j < |b| && b[j] == a[n - 1]
  {
    assert forall i | 0 <= i < n - 1 :: b[i] < a[n - 1];
    j :| 0 <= j < |b| && b[j] == a[n - 1];
  }

  lemma ListsAgree(a: seq<nat>, b: seq<nat>, backups: map<nat, bytes>)
    requires Lists(a, backups) && Lists(b, backups)
    ensures a == b
  {
    PrefixAgrees(a, b, |a|);
    PrefixAgrees(b, a, |b|);
  }

  lemma {:induction false} ContentsReachLimit(h: History, s: Store, threshold: Level, max: nat, calls: seq<Call>, n: nat)
    requires n <= |calls| && NoneEmpty(h)
    ensures NoneEmpty(HistoryAfter(h, s, threshold, max, calls, n))
    ensures forall k | k in Surviving(HistoryAfter(h, s, threshold, max, calls, n)) ::
              || (k in Surviving(h) && Surviving(HistoryAfter(h, s, threshold, max, calls, n))[k] == Surviving(h)[k])
              || (max > 0 && |Surviving(HistoryAfter(h, s, threshold, max, calls, n))[k]| >= max)
  {
    if n == 0 {
    } else {
      ContentsReachLimit(h, s, threshold, max, calls, n - 1);
    }
  }

  /** The backups in time order, then the log file, make up `total`. */
  ghost predicate Holds(t: Store, total: bytes)
    requires t.live.Some?
  {
    exists ks :: Lists(ks, t.backups) && BackupText(ks, t.backups) + t.live.value == total
  }

  lemma HoldsExactly(h: History, t: Store, total: bytes)
    requires ClockMonotone(h) && NoneEmpty(h)
    requires t.live.Some? && t.backups == Surviving(h) && Contents(h) + t.live.value == total
    ensures Holds(t, total) <==> !SameSecondTwice(h)
  {
    SurvivingText(h);
    if !SameSecondTwice(h) {
      assert BackupText(Seconds(h), t.backups) + t.live.value == total;
    } else {
      forall ks | Lists(ks, t.backups) ensures BackupText(ks, t.backups) + t.live.value != total {
        ListsAgree(ks, Seconds(h), t.backups);
      }
    }
  }

  /**
   * Conservation over a whole run in which reopening succeeds, whether or not every rename does. Starting after
   * the rotations of h, the backups in time order followed by the log file equal what was set aside or logged before
   * and every admitted line in order, if and only if no two successful rotations fell into the same second.
   */
  lemma ConservationExactly(h: History, s: Store, threshold: Level, max: nat, calls: seq<Call>)
    requires Attached(s) && OpensSucceed(calls)
    requires s.backups == Surviving(h) && NoneEmpty(h)
    requires ClockMonotone(HistoryAfter(h, s, threshold, max, calls, |calls|))
    ensures var t := After(s, threshold, max, calls, |calls|);
            && Attached(t)
            && (Holds(t, Contents(h) + s.live.value + AdmittedText(threshold, calls, |calls|))
                <==> !SameSecondTwice(HistoryAfter(h, s, threshold, max, calls, |calls|)))
  {
    NothingSkipped(s, threshold, max, calls, |calls|, h);
    ContentsReachLimit(h, s, threshold, max, calls, |calls|);
    HoldsExactly(HistoryAfter(h, s, threshold, max, calls, |calls|), After(s, threshold, max, calls, |calls|),
                 Contents(h) + s.live.value + AdmittedText(threshold, calls, |calls|));
  }

  /** It does happen that a line is lost: two rotations in one second, every rename and open succeeding. */
  lemma SameSecondLoses()
    ensures exists s: Store, calls: seq<Call> ::
              && Attached(s) && OpensSucceed(calls) && s.backups == map[]
              && After(s, INFO, 1, calls, |calls|).live.Some?
              && !Holds(After(s, INFO, 1, calls, |calls|), s.live.value + AdmittedText(INFO, calls, |calls|))
  {
    var s := Store(Some([0x61]), map[], true, []);
    var calls := [Call(INFO, [0x62], 0, true, true), Call(INFO, [0x63], 0, true, true)];
    var t := After(s, INFO, 1, calls, 1);
    assert After(s, INFO, 1, calls, 0) == s && Rotates(s, INFO, 1, calls[0]);
    LoggedAttached(s, INFO, 1, calls[0]);
    assert t == Store(Some([0x62]), map[0 := [0x61]], true, []);
    var h := HistoryAfter(Empty, s, INFO, 1, calls, 2);
    assert HistoryAfter(Empty, s, INFO, 1, calls, 1) == Later(Empty, 0, [0x61]);
    assert h == Later(Later(Empty, 0, [0x61]), 0, [0x62]);
    ConservationExactly(Empty, s, INFO, 1, calls);
    assert Contents(Empty) + s.live.value == s.live.value;
  }

  // ------------------------------------------------------------------ sizes

  /** Every backup a run makes has reached the size limit, whichever renames fail. */
  lemma BackupsReachLimit(s: Store, threshold: Level, max: nat, calls: seq<Call>, k: nat)
    requires Attached(s) && OpensSucceed(calls) && s.backups == map[]
    requires k in After(s, threshold, max, calls, |calls|).backups
    ensures max > 0 && |After(s, threshold, max, calls, |calls|).backups[k]| >= max
  {
    NothingSkipped(s, threshold, max, calls, |calls|, Empty);
    ContentsReachLimit(Empty, s, threshold, max, calls, |calls|);
  }

  function LongestLine(calls: seq<Call>, n: nat): (m: nat)
    requires n <= |calls|
    ensures forall i | 0 <= i < n :: |calls[i].line| <= m
  {
    if n == 0 then 0
    else
      var m := LongestLine(calls, n - 1);
      if |calls[n - 1].line| > m then |calls[n - 1].line| else m
  }

  /**
   * Where renaming and reopening succeed, the log file is smaller than the limit plus the longest line from the
   * first admitted write on, however large it was to begin with.
   */
  lemma {:induction false} LiveBounded(s: Store, threshold: Level, max: nat, calls: seq<Call>, n: nat)
    requires Attached(s) && OpensSucceed(calls) && max > 0 && n <= |calls|
    requires forall i | 0 <= i < |calls| :: calls[i].renameOk
    ensures var t := After(s, threshold, max, calls, n);
            && Attached(t)
            && (|t.live.value| < max + LongestLine(calls, n)
                || (t == s && forall i | 0 <= i < n :: !Admits(threshold, calls[i])))
  {
    if n == 0 {
    } else {
      LiveBounded(s, threshold, max, calls, n - 1);
      LoggedAttached(After(s, threshold, max, calls, n - 1), threshold, max, calls[n - 1]);
    }
  }
}

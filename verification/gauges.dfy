/** The per-process gauge cache and its sweeper: src/exporter.cpp, set_metrics and task_gauge_cache_timeout. */
module Gauges {
  import opened Text
  import opened Capture
  import opened Paths
  import Filter

  const KEY_PREFIX: bytes := Ascii("filetrace_info_record_")

  datatype Labels = Labels(operation: bytes, cmd: bytes, pid: bytes, ppid: bytes, uid: bytes, gid: bytes,
                           inode: bytes, file: bytes, ts: bytes)

  type GaugeId = nat

  /**
   * cache, stamps: gauge_cache and gauge_cache_timestamps, the latter as text or as the numbers it spells; family: the registered series, by label set;
   * value: what each gauge was last set to; registered: whether the family exists yet; next: an unused gauge.
   */
  datatype State<T> = State(registered: bool, cache: map<bytes, GaugeId>, stamps: map<bytes, T>,
                         family: map<Labels, GaugeId>, value: map<GaugeId, nat>, next: GaugeId)

  /** What set_metrics has prepared when it comes to the lock. */
  datatype Pending = Pending(pid: nat, labels: Labels, now: int)

  function Operation(flag: Syscall): bytes {
    match flag
    case Unlinkat => Ascii("sys_enter_unlinkat")
    case CopyFileRange => Ascii("sys_enter_copy_file_range")
    case Rename => Ascii("sys_enter_rename")
    case Renameat => Ascii("sys_enter_renameat")
    case Renameat2 => Ascii("sys_enter_renameat2")
    case Write => Ascii("sys_enter_write")
    case Openat => Ascii("sys_enter_openat")
    case Dup2 => Ascii("sys_enter_dup2")
    case Unknown => []
  }

  function Key(pid: nat): bytes {
    KEY_PREFIX + Dec(pid)
  }

  function LabelsOf(e: Event, now: int): Labels {
    Labels(Operation(e.flag), e.cmd, Dec(e.pid), Dec(e.ppid), Dec(e.uid), Dec(e.gid), Dec(e.ino),
           Filter.Reported(e), ToString(now))
  }

  function Prepare(e: Event, now: int): Pending {
    Pending(e.pid, LabelsOf(e, now), now)
  }

  /** The names of the system calls by their numbers in struct event. */
  const NR_MAP: seq<string> := [
    "sys_enter_unlinkat", "sys_enter_copy_file_range", "sys_enter_rename", "sys_enter_renameat",
    "sys_enter_renameat2", "sys_enter_write", "sys_enter_openat", "sys_enter_dup2"
  ]

  const NUMBERED: seq<Syscall> := [Unlinkat, CopyFileRange, Rename, Renameat, Renameat2, Write, Openat, Dup2]

  lemma OperationNamed(i: nat)
    requires i < 8
    ensures (forall j | 0 <= j < |NR_MAP[i]| :: NR_MAP[i][j] as int < 0x80) && Operation(NUMBERED[i]) == Ascii(NR_MAP[i])
  {
  }

  /** What the labels say about the event, the operation aside. */
  predicate Describes(l: Labels, e: Event, now: int) {
    && l.cmd == e.cmd && l.pid == Dec(e.pid) && l.ppid == Dec(e.ppid) && l.uid == Dec(e.uid) && l.gid == Dec(e.gid)
    && l.inode == Dec(e.ino) && l.ts == ToString(now)
    && l.file == if e.flag == Write || e.flag == CopyFileRange then FullPath(e) else e.filename
  }

  /** The series of a write or copy names the process, its parent, the file's inode and its rebuilt path. */
  lemma LabelsOfWrite(task: Task, ino: nat, d: Dentry, flag: Syscall, now: int)
    requires Filter.IsFile(d) && (flag == Write || flag == CopyFileRange)
    ensures var l := LabelsOf(FileEvent(task, ino, d, flag), now);
            && l.cmd == task.comm && l.pid == Dec(task.tgid) && l.uid == Dec(task.uid) && l.gid == Dec(task.gid)
            && l.ppid == Dec(match task.parent case Some(ppid) => ppid case None => 0)
            && l.inode == Dec(ino) && l.file == Filter.RebuiltFor(d) && l.ts == ToString(now)
  {
    FileEventTells(task, ino, d, flag);
    RebuiltPath(task, ino, d, flag);
  }

  /** Distinct processes have distinct keys and distinct label sets, the decimal printer being injective. */
  lemma KeysDistinct(a: Event, b: Event, s: int, t: int)
    requires a.pid != b.pid
    ensures Key(a.pid) != Key(b.pid) && LabelsOf(a, s) != LabelsOf(b, t)
  {
    KeyInjective(a.pid, b.pid);
    if Dec(a.pid) == Dec(b.pid) {
      DecInjective(a.pid, b.pid);
    }
  }

  lemma KeyInjective(p: nat, q: nat)
    ensures Key(p) == Key(q) <==> p == q
  {
    assert Key(p)[|KEY_PREFIX|..] == Dec(p) && Key(q)[|KEY_PREFIX|..] == Dec(q);
    if Dec(p) == Dec(q) {
      DecInjective(p, q);
    }
  }

  // ------------------------------------------------------------------ the two critical sections

  /** Family::Add: equal labels give back the gauge they already have. */
  function Added(family: map<Labels, GaugeId>, next: GaugeId, labels: Labels): (r: (map<Labels, GaugeId>, GaugeId))
    ensures labels in r.0
  {
    if labels in family then (family, next) else (family[labels := next], next + 1)
  }

  /** The locked half of set_metrics, for the cache key, pid and labels it has prepared. */
  function CommitAt<T>(s: State<T>, key: bytes, pid: nat, labels: Labels, stamp: T): State<T> {
    if key in s.cache then
      s.(value := s.value[s.cache[key] := pid], stamps := s.stamps[key := stamp])
    else
      var (family, next) := Added(s.family, s.next, labels);
      var gauge := family[labels];
      State(true, s.cache[key := gauge], s.stamps[key := stamp], family, s.value[gauge := pid], next)
  }

  function Commit<T>(s: State<T>, p: Pending, stamp: T): State<T> {
    CommitAt(s, Key(p.pid), p.pid, p.labels, stamp)
  }

  /** The keys found stale when `when` gives the clock at the moment each was examined. */
  function Stale(s: State<int>, timeout: int, when: map<bytes, int>): set<bytes>
  {
    set k | k in s.stamps && k in when && when[k] - s.stamps[k] > timeout
  }

  function GaugesOf<T>(s: State<T>, keys: set<bytes>): set<GaugeId> {
    set k | k in keys && k in s.cache :: s.cache[k]
  }

  /** Family::Remove for each of the given gauges. */
  function Without(family: map<Labels, GaugeId>, gauges: set<GaugeId>): map<Labels, GaugeId> {
    map l | l in family && family[l] !in gauges :: family[l]
  }

  /** Stale keys leave both maps, and the series of their gauges leave the family. */
  function Forget<T>(s: State<T>, stale: set<bytes>): State<T> {
    s.(cache := s.cache - stale, stamps := s.stamps - stale, family := Without(s.family, GaugesOf(s, stale)))
  }

  // ------------------------------------------------------------------ agreement of cache and registry

  /** The cache key of the process a series is about. */
  function SeriesKey(l: Labels): bytes {
    KEY_PREFIX + l.pid
  }

  predicate SeriesCached<T>(s: State<T>, l: Labels) {
    l in s.family && SeriesKey(l) in s.cache && s.cache[SeriesKey(l)] == s.family[l]
  }

  ghost predicate HasSeries<T>(s: State<T>, k: bytes) {
    exists l :: l in s.family && SeriesKey(l) == k
  }

  /** Distinct keys have distinct gauges, all of them already handed out. */
  predicate CacheInjective<T>(s: State<T>) {
    && (forall j, k | j in s.cache && k in s.cache && s.cache[j] == s.cache[k] :: j == k)
    && (forall k | k in s.cache :: s.cache[k] < s.next)
  }

  /** The series are the cached gauges, one for each key. */
  ghost predicate SeriesAgree<T>(s: State<T>) {
    && (forall l | l in s.family :: SeriesCached(s, l))
    && (forall l, m | l in s.family && m in s.family && SeriesKey(l) == SeriesKey(m) :: l == m)
    && (forall k | k in s.cache :: HasSeries(s, k))
  }

  /** What holds whenever the lock is free. */
  ghost predicate Agrees<T>(s: State<T>) {
    && s.cache.Keys == s.stamps.Keys
    && CacheInjective(s)
    && SeriesAgree(s)
    && (!s.registered ==> s.cache == map[])
  }

  /** A prepared update is about the process its labels name. */
  predicate Consistent(p: Pending) {
    SeriesKey(p.labels) == Key(p.pid)
  }

  lemma CommitAgrees<T>(s: State<T>, key: bytes, pid: nat, labels: Labels, stamp: T)
    requires Agrees(s) && SeriesKey(labels) == key
    ensures Agrees(CommitAt(s, key, pid, labels, stamp))
  {
    if key in s.cache {
      SameSeries(s, s.(value := s.value[s.cache[key] := pid], stamps := s.stamps[key := stamp]));
    } else {
      NotYetRegistered(s, labels);
      NewSeries(s, labels, pid, stamp);
    }
  }

  lemma NotYetRegistered<T>(s: State<T>, labels: Labels)
    requires SeriesAgree(s) && SeriesKey(labels) !in s.cache
    ensures labels !in s.family
  {
    assert labels in s.family ==> SeriesCached(s, labels);
  }

  lemma SameSeries<T>(s: State<T>, t: State<T>)
    requires Agrees(s) && t.registered == s.registered && t.cache == s.cache && t.family == s.family && t.next == s.next
    requires t.stamps.Keys == s.stamps.Keys
    ensures Agrees(t)
  {
    forall l | l in t.family ensures SeriesCached(t, l) {
      assert SeriesCached(s, l);
    }
    forall k | k in t.cache ensures HasSeries(t, k) {
      assert HasSeries(s, k);
    }
  }

  /** A key that is not cached has no series, so Family::Add makes a new one. */
  lemma NewSeries<T>(s: State<T>, labels: Labels, pid: nat, stamp: T)
    requires Agrees(s) && SeriesKey(labels) !in s.cache
    ensures Agrees(State(true, s.cache[SeriesKey(labels) := s.next], s.stamps[SeriesKey(labels) := stamp],
                         s.family[labels := s.next], s.value[s.next := pid], s.next + 1))
  {
    var key := SeriesKey(labels);
    var t := State(true, s.cache[key := s.next], s.stamps[key := stamp],
                   s.family[labels := s.next], s.value[s.next := pid], s.next + 1);
    assert CacheInjective(t);
    NewSeriesAgree(s, t, labels);
  }

  lemma NewSeriesAgree<T>(s: State<T>, t: State<T>, labels: Labels)
    requires SeriesAgree(s) && SeriesKey(labels) !in s.cache
    requires t.cache == s.cache[SeriesKey(labels) := s.next] && t.family == s.family[labels := s.next]
    ensures SeriesAgree(t)
  {
    forall l | l in s.family ensures SeriesKey(l) in s.cache {
      assert SeriesCached(s, l);
    }
    forall l | l in t.family ensures SeriesCached(t, l) {
      if l != labels {
        assert SeriesCached(s, l);
      }
    }
    forall k | k in t.cache ensures HasSeries(t, k) {
      if k == SeriesKey(labels) {
        assert labels in t.family;
      } else {
        assert HasSeries(s, k);
        var l :| l in s.family && SeriesKey(l) == k;
        assert l in t.family;
      }
    }
  }

  /** A sweep removes the series of the stale keys and no other process's. */
  lemma ForgetSeries<T>(s: State<T>, stale: set<bytes>, l: Labels)
    requires CacheInjective(s) && SeriesAgree(s) && l in s.family
    ensures l in Forget(s, stale).family <==> SeriesKey(l) !in stale
    ensures l in Forget(s, stale).family ==> Forget(s, stale).family[l] == s.family[l]
  {
    assert SeriesCached(s, l);
    assert s.family[l] in GaugesOf(s, stale) <==> SeriesKey(l) in stale;
  }

  lemma ForgetAgrees<T>(s: State<T>, stale: set<bytes>)
    requires Agrees(s)
    ensures Agrees(Forget(s, stale))
  {
    var t := Forget(s, stale);
    forall l | l in t.family ensures SeriesCached(t, l) {
      ForgetSeries(s, stale, l);
      assert SeriesCached(s, l);
    }
    forall k | k in t.cache ensures HasSeries(t, k) {
      assert HasSeries(s, k);
      var l :| l in s.family && SeriesKey(l) == k;
      ForgetSeries(s, stale, l);
      assert l in t.family;
    }
  }

  /** Each gauge was last set to the pid its key is printed from. */
  predicate GaugesTellPid<T>(s: State<T>) {
    forall k | k in s.cache :: s.cache[k] in s.value && k == Key(s.value[s.cache[k]])
  }

  lemma CommitTellsPid<T>(s: State<T>, p: Pending, stamp: T)
    requires CacheInjective(s) && GaugesTellPid(s)
    requires Key(p.pid) !in s.cache ==> p.labels !in s.family
    ensures GaugesTellPid(Commit(s, p, stamp))
  {
    var t, key := Commit(s, p, stamp), Key(p.pid);
    forall k | k in t.cache ensures t.cache[k] in t.value && k == Key(t.value[t.cache[k]]) {
      if k != key {
        assert k in s.cache && t.cache[k] == s.cache[k] != t.cache[key];
      }
    }
  }

  lemma CommitSound<T>(s: State<T>, p: Pending, stamp: T)
    requires Agrees(s) && GaugesTellPid(s) && Consistent(p)
    ensures Agrees(Commit(s, p, stamp)) && GaugesTellPid(Commit(s, p, stamp))
  {
    CommitAgrees(s, Key(p.pid), p.pid, p.labels, stamp);
    if Key(p.pid) !in s.cache {
      NotYetRegistered(s, p.labels);
    }
    CommitTellsPid(s, p, stamp);
  }

  // ------------------------------------------------------------------ every interleaving

  /** The set_metrics calls between their time sample and the lock, beside what the lock protects. */
  datatype World = World(state: State<int>, pending: seq<Pending>)

  datatype Step = Sample(e: Event, now: int) | Locked(i: nat) | Sweep(when: map<bytes, int>)

  const EMPTY: State<int> := State(false, map[], map[], map[], map[], 0)

  predicate Enabled(w: World, step: Step) {
    match step
    case Sample(_, _) => true
    case Locked(i) => i < |w.pending|
    case Sweep(when) => when.Keys == w.state.stamps.Keys
  }

  function Apply(w: World, timeout: int, step: Step): World
    requires Enabled(w, step)
  {
    match step
    case Sample(e, now) => World(w.state, w.pending + [Prepare(e, now)])
    case Locked(i) => World(Commit(w.state, w.pending[i], w.pending[i].now), w.pending[..i] + w.pending[i + 1..])
    case Sweep(when) => w.(state := Forget(w.state, Stale(w.state, timeout, when)))
  }

  ghost predicate Sound(w: World) {
    Agrees(w.state) && GaugesTellPid(w.state) && forall i | 0 <= i < |w.pending| :: Consistent(w.pending[i])
  }

  lemma StepSound(w: World, timeout: int, step: Step)
    requires Sound(w) && Enabled(w, step)
    ensures Sound(Apply(w, timeout, step))
  {
    match step
    case Sample(e, now) =>
    case Locked(i) => LockedSound(w, timeout, i);
    case Sweep(when) => SweepSound(w, timeout, when);
  }

  lemma LockedSound(w: World, timeout: int, i: nat)
    requires Sound(w) && i < |w.pending|
    ensures Sound(Apply(w, timeout, Locked(i)))
  {
    var v := Apply(w, timeout, Locked(i));
    CommitSound(w.state, w.pending[i], w.pending[i].now);
    forall j | 0 <= j < |v.pending| ensures Consistent(v.pending[j]) {
      assert v.pending[j] == w.pending[if j < i then j else j + 1];
    }
  }

  lemma SweepSound(w: World, timeout: int, when: map<bytes, int>)
    requires Sound(w) && Enabled(w, Sweep(when))
    ensures Sound(Apply(w, timeout, Sweep(when)))
  {
    ForgetAgrees(w.state, Stale(w.state, timeout, when));
  }

  /** Every step of an interleaving is enabled where it is taken. */
  ghost predicate Run(timeout: int, worlds: seq<World>, steps: seq<Step>) {
    && |worlds| == |steps| + 1
    && worlds[0] == World(EMPTY, [])
    && forall i | 0 <= i < |steps| :: Enabled(worlds[i], steps[i]) && worlds[i + 1] == Apply(worlds[i], timeout, steps[i])
  }

  /** Under every interleaving of event threads and sweeps the cache and the registry agree whenever the lock is free. */
  lemma {:induction false} AlwaysSound(timeout: int, worlds: seq<World>, steps: seq<Step>, i: nat)
    requires Run(timeout, worlds, steps) && i < |worlds|
    ensures Sound(worlds[i])
  {
    if i == 0 {
    } else {
      AlwaysSound(timeout, worlds, steps, i - 1);
      StepSound(worlds[i - 1], timeout, steps[i - 1]);
      assert worlds[i - 1 + 1] == worlds[i];
    }
  }

  predicate OnlySeriesOf<T>(s: State<T>, gauge: GaugeId, l: Labels) {
    && l in s.family && s.family[l] == gauge
    && forall m | m in s.family && s.family[m] == gauge :: m == l
  }

  /** What agreement means to a scraper: the exported series correspond one to one to the cached processes. */
  lemma SeriesExactly<T>(s: State<T>)
    requires Agrees(s)
    ensures s.family.Values == s.cache.Values
    ensures forall k | k in s.cache :: exists l :: SeriesKey(l) == k && OnlySeriesOf(s, s.cache[k], l)
  {
    forall l | l in s.family ensures s.family[l] in s.cache.Values {
      assert SeriesCached(s, l);
    }
    forall k | k in s.cache ensures exists l :: SeriesKey(l) == k && OnlySeriesOf(s, s.cache[k], l) {
      assert HasSeries(s, k);
      var l :| l in s.family && SeriesKey(l) == k;
      assert SeriesCached(s, l);
      forall m | m in s.family && s.family[m] == s.cache[k] ensures m == l {
        assert SeriesCached(s, m);
      }
      assert OnlySeriesOf(s, s.cache[k], l);
    }
  }

  // ------------------------------------------------------------------ precision of the sweep

  predicate ReadBetween(when: map<bytes, int>, t0: int, t1: int) {
    forall k | k in when :: t0 <= when[k] <= t1
  }

  /** A sweep from t0 to t1 removes every key stamped before t0 - timeout and none stamped at or after t1 - timeout. */
  lemma SweepPrecision(s: State<int>, timeout: int, when: map<bytes, int>, t0: int, t1: int, k: bytes)
    requires Agrees(s) && when.Keys == s.stamps.Keys && ReadBetween(when, t0, t1)
    requires k in s.stamps
    ensures var t := Forget(s, Stale(s, timeout, when));
            && (s.stamps[k] < t0 - timeout ==> k !in t.stamps && k !in t.cache && !HasSeries(t, k))
            && (s.stamps[k] >= t1 - timeout ==> k in t.stamps && k in t.cache && HasSeries(t, k))
  {
    var stale := Stale(s, timeout, when);
    var t := Forget(s, stale);
    ForgetAgrees(s, stale);
    if HasSeries(t, k) {
      var l :| l in t.family && SeriesKey(l) == k;
      assert SeriesCached(t, l);
    }
    if k in t.cache {
      assert HasSeries(t, k);
    }
  }

  /** Stamped at or after `t` now, and about to stay so. */
  predicate FreshSince(w: World, k: bytes, t: int) {
    && k in w.state.stamps && w.state.stamps[k] >= t
    && forall i | 0 <= i < |w.pending| && Key(w.pending[i].pid) == k :: w.pending[i].now >= t
  }

  predicate ClockWithin(step: Step, k: bytes, t: int, timeout: int) {
    match step
    case Sample(e, now) => Key(e.pid) == k ==> now >= t
    case Locked(_) => true
    case Sweep(when) => k in when ==> when[k] <= t + timeout
  }

  /** A process stamped at `t` keeps its series through every interleaving until the clock passes t + timeout. */
  lemma {:induction false} FreshStays(timeout: int, worlds: seq<World>, steps: seq<Step>, k: bytes, t: int, i: nat, j: nat)
    requires Run(timeout, worlds, steps) && i <= j < |worlds|
    requires FreshSince(worlds[i], k, t)
    requires forall n | i <= n < j :: ClockWithin(steps[n], k, t, timeout)
    ensures FreshSince(worlds[j], k, t) && HasSeries(worlds[j].state, k)
    decreases j
  {
    AlwaysSound(timeout, worlds, steps, j);
    if i == j {
    } else {
      var n := j - 1;
      FreshStays(timeout, worlds, steps, k, t, i, n);
      assert worlds[n + 1] == worlds[j] && ClockWithin(steps[n], k, t, timeout);
      FreshStep(worlds[n], timeout, steps[n], k, t);
    }
    assert k in worlds[j].state.cache;
  }

  lemma FreshStep(w: World, timeout: int, step: Step, k: bytes, t: int)
    requires Enabled(w, step) && FreshSince(w, k, t) && ClockWithin(step, k, t, timeout)
    ensures FreshSince(Apply(w, timeout, step), k, t)
  {
    var v := Apply(w, timeout, step);
    match step
    case Sample(e, now) =>
    case Locked(i) =>
      assert v.state.stamps == w.state.stamps[Key(w.pending[i].pid) := w.pending[i].now];
      forall j | 0 <= j < |v.pending| && Key(v.pending[j].pid) == k ensures v.pending[j].now >= t {
        assert v.pending[j] == w.pending[if j < i then j else j + 1];
      }
    case Sweep(when) =>
  }

  /** Every update, of a cached process or a new one, moves its stamp to the time it sampled, and no other stamp. */
  lemma UpdateStamps(w: World, timeout: int, i: nat)
    requires i < |w.pending|
    ensures var t, p := Apply(w, timeout, Locked(i)).state, w.pending[i];
            && Key(p.pid) in t.stamps && t.stamps[Key(p.pid)] == p.now
            && forall k | k != Key(p.pid) :: (k in t.stamps <==> k in w.state.stamps)
                                             && (k in t.stamps ==> t.stamps[k] == w.state.stamps[k])
  {
  }

  /**
   * Once an update sampled at `t` has been committed, and with no update of the same process sampled before `t`
   * still on its way, the process keeps its series through every interleaving until the clock passes t + timeout.
   */
  lemma UpdatedStays(timeout: int, worlds: seq<World>, steps: seq<Step>, a: nat, i: nat, t: int, j: nat)
    requires Run(timeout, worlds, steps) && a < j < |worlds|
    requires steps[a] == Locked(i) && i < |worlds[a].pending| && worlds[a].pending[i].now == t
    requires forall m | 0 <= m < |worlds[a].pending| && worlds[a].pending[m].pid == worlds[a].pending[i].pid ::
               worlds[a].pending[m].now >= t
    requires forall n | a < n < j :: ClockWithin(steps[n], Key(worlds[a].pending[i].pid), t, timeout)
    ensures HasSeries(worlds[j].state, Key(worlds[a].pending[i].pid))
  {
    var w, v, k := worlds[a], worlds[a + 1], Key(worlds[a].pending[i].pid);
    assert v == Apply(w, timeout, Locked(i));
    UpdateStamps(w, timeout, i);
    forall m | 0 <= m < |v.pending| && Key(v.pending[m].pid) == k ensures v.pending[m].now >= t {
      KeyInjective(v.pending[m].pid, w.pending[i].pid);
      assert v.pending[m] == w.pending[if m < i then m else m + 1];
    }
    FreshStays(timeout, worlds, steps, k, t, a + 1, j);
  }

  // ------------------------------------------------------------------ timestamps as text

  /** What std::stol makes of a stored timestamp, compared with the clock. */
  predicate Expired(text: bytes, now: int, timeout: int) {
    match Stol(text)
    case None => false
    case Some(timestamp) => now - timestamp > timeout
  }

  function StaleText(stamps: map<bytes, bytes>, timeout: int, when: map<bytes, int>): set<bytes> {
    set k | k in stamps && k in when && Expired(stamps[k], when[k], timeout)
  }

  /** The entries still to be met are as they were. */
  predicate Untouched(stamps: map<bytes, bytes>, before: map<bytes, bytes>, todo: set<bytes>) {
    forall k | k in todo :: k in stamps && k in before && stamps[k] == before[k]
  }

  predicate Unreadable(stamps: map<bytes, bytes>, key: bytes) {
    key in stamps && Stol(stamps[key]) == None
  }

  /** The text in `raw` spells the numbers in `s`, everything else being equal. */
  ghost predicate Spells(raw: State<bytes>, s: State<int>) {
    && raw.registered == s.registered && raw.cache == s.cache && raw.family == s.family
    && raw.value == s.value && raw.next == s.next
    && SpelledBy(raw.stamps, s.stamps)
  }

  predicate SpelledBy(texts: map<bytes, bytes>, times: map<bytes, int>) {
    && texts.Keys == times.Keys
    && forall k | k in texts :: Stol(texts[k]) == Some(times[k])
  }

  lemma SpelledUpdate(texts: map<bytes, bytes>, times: map<bytes, int>, key: bytes, text: bytes, time: int)
    requires SpelledBy(texts, times) && Stol(text) == Some(time)
    ensures SpelledBy(texts[key := text], times[key := time])
  {
  }

  lemma SpelledCommitAt(raw: State<bytes>, s: State<int>, key: bytes, pid: nat, labels: Labels, text: bytes, now: int)
    requires Spells(raw, s) && Stol(text) == Some(now)
    ensures Spells(CommitAt(raw, key, pid, labels, text), CommitAt(s, key, pid, labels, now))
  {
    SpelledUpdate(raw.stamps, s.stamps, key, text, now);
  }

  lemma SpelledCommit(raw: State<bytes>, s: State<int>, p: Pending)
    requires Spells(raw, s) && -LONG_LIMIT <= p.now < LONG_LIMIT
    ensures Spells(Commit(raw, p, ToString(p.now)), Commit(s, p, p.now))
  {
    StolInvertsToString(p.now);
    SpelledCommitAt(raw, s, Key(p.pid), p.pid, p.labels, ToString(p.now), p.now);
  }

  /** Through the text the sweeper finds exactly the keys the numbers make stale, and forgetting them keeps the two in step. */
  lemma SpelledSweep(raw: State<bytes>, s: State<int>, timeout: int, when: map<bytes, int>)
    requires Spells(raw, s)
    ensures StaleText(raw.stamps, timeout, when) == Stale(s, timeout, when)
    ensures Spells(Forget(raw, StaleText(raw.stamps, timeout, when)), Forget(s, Stale(s, timeout, when)))
  {
    assert StaleText(raw.stamps, timeout, when) == Stale(s, timeout, when);
  }

  // ------------------------------------------------------------------ one pass of the sweeper

  datatype Visit = Visit(key: bytes, now: int)

  ghost predicate Visited(visits: seq<Visit>, key: bytes) {
    exists i :: 0 <= i < |visits| && visits[i].key == key
  }

  predicate Distinct(visits: seq<Visit>) {
    forall i, j | 0 <= i < j < |visits| :: visits[i].key != visits[j].key
  }

  lemma VisitMore(visits: seq<Visit>, v: Visit)
    requires Distinct(visits) && !Visited(visits, v.key)
    ensures Distinct(visits + [v])
    ensures forall k :: Visited(visits + [v], k) <==> Visited(visits, k) || k == v.key
  {
    var more := visits + [v];
    forall k ensures Visited(more, k) <==> Visited(visits, k) || k == v.key {
      if k == v.key {
        assert more[|visits|].key == k;
      } else if Visited(visits, k) {
        var i :| 0 <= i < |visits| && visits[i].key == k;
        assert more[i].key == k;
      }
    }
  }

  /** Half-way through a pass: `todo` are the entries not yet met, each visit took the next reading of the clock. */
  ghost predicate Underway(keys: set<bytes>, todo: set<bytes>, visits: seq<Visit>, clock: seq<int>) {
    && |visits| + |todo| <= |clock|
    && todo <= keys
    && Distinct(visits)
    && (forall k | k in keys :: k in todo <==> !Visited(visits, k))
    && (forall i | 0 <= i < |visits| :: visits[i].now == clock[i] && visits[i].key in keys)
  }

  lemma UnderwayStep(keys: set<bytes>, todo: set<bytes>, visits: seq<Visit>, clock: seq<int>, key: bytes)
    requires Underway(keys, todo, visits, clock) && key in todo
    ensures |visits| < |clock|
    ensures Underway(keys, todo - {key}, visits + [Visit(key, clock[|visits|])], clock)
  {
    assert |todo - {key}| == |todo| - 1;
    VisitMore(visits, Visit(key, clock[|visits|]));
  }

  function Examined(s: State<bytes>, timeout: int, v: Visit): State<bytes> {
    if v.key in s.stamps && Expired(s.stamps[v.key], v.now, timeout) then Forget(s, {v.key}) else s
  }

  /** The effect of examining entries one after another, erasing as the loop goes. */
  function Swept(s: State<bytes>, timeout: int, visits: seq<Visit>): State<bytes> {
    if visits == [] then s
    else Examined(Swept(s, timeout, visits[..|visits| - 1]), timeout, visits[|visits| - 1])
  }

  lemma SweptStep(s: State<bytes>, timeout: int, visits: seq<Visit>, v: Visit)
    ensures Swept(s, timeout, visits + [v]) == Examined(Swept(s, timeout, visits), timeout, v)
  {
    assert (visits + [v])[..|visits|] == visits;
  }

  /** `when` records the visits. */
  ghost predicate Records(when: map<bytes, int>, visits: seq<Visit>) {
    && (forall k :: k in when <==> Visited(visits, k))
    && (forall i | 0 <= i < |visits| :: visits[i].key in when && when[visits[i].key] == visits[i].now)
  }

  function WhenOf(visits: seq<Visit>): map<bytes, int> {
    if visits == [] then map[]
    else WhenOf(visits[..|visits| - 1])[visits[|visits| - 1].key := visits[|visits| - 1].now]
  }

  lemma {:induction false} WhenExactly(visits: seq<Visit>)
    requires Distinct(visits)
    ensures Records(WhenOf(visits), visits)
  {
    if visits == [] {
    } else {
      var front, last := visits[..|visits| - 1], visits[|visits| - 1];
      WhenExactly(front);
      assert visits == front + [last];
      assert !Visited(front, last.key);
      VisitMore(front, last);
      forall i | 0 <= i < |visits|
        ensures visits[i].key in WhenOf(visits) && WhenOf(visits)[visits[i].key] == visits[i].now
      {
        if i < |front| {
          assert front[i] == visits[i] && visits[i].key != last.key;
        }
      }
    }
  }

  lemma ForgetTwice<T>(s: State<T>, a: set<bytes>, b: set<bytes>)
    requires a !! b
    ensures Forget(s, a + b) == Forget(Forget(s, a), b)
  {
    assert GaugesOf(s, a + b) == GaugesOf(s, a) + GaugesOf(s, b);
    assert GaugesOf(Forget(s, a), b) == GaugesOf(s, b);
    assert s.cache - (a + b) == (s.cache - a) - b;
    assert s.stamps - (a + b) == (s.stamps - a) - b;
  }

  lemma ForgetNothing<T>(s: State<T>)
    ensures Forget(s, {}) == s
  {
    assert GaugesOf(s, {}) == {} && Without(s.family, {}) == s.family;
  }

  lemma StaleMore(stamps: map<bytes, bytes>, timeout: int, when: map<bytes, int>, v: Visit)
    requires v.key !in when
    ensures StaleText(stamps, timeout, when[v.key := v.now]) ==
            StaleText(stamps, timeout, when)
            + if v.key in stamps && Expired(stamps[v.key], v.now, timeout) then {v.key} else {}
    ensures v.key !in StaleText(stamps, timeout, when)
  {
  }

  /** Erasing while iterating amounts to erasing all stale entries at once. */
  lemma {:induction false} SweptIsForget(s: State<bytes>, timeout: int, visits: seq<Visit>)
    requires Distinct(visits)
    ensures Swept(s, timeout, visits) == Forget(s, StaleText(s.stamps, timeout, WhenOf(visits)))
  {
    if visits == [] {
      assert StaleText(s.stamps, timeout, map[]) == {};
      ForgetNothing(s);
    } else {
      var front, last := visits[..|visits| - 1], visits[|visits| - 1];
      SweptIsForget(s, timeout, front);
      WhenExactly(front);
      assert !Visited(front, last.key);
      StaleMore(s.stamps, timeout, WhenOf(front), last);
      ForgetTwice(s, StaleText(s.stamps, timeout, WhenOf(front)), {last.key});
      var stale := StaleText(s.stamps, timeout, WhenOf(front));
      assert stale + {} == stale;
    }
  }

  lemma CompletePass(keys: set<bytes>, visits: seq<Visit>, clock: seq<int>, when: map<bytes, int>, t0: int, t1: int)
    requires Underway(keys, {}, visits, clock) && Records(when, visits)
    requires forall i | 0 <= i < |clock| :: t0 <= clock[i] <= t1
    ensures when.Keys == keys && ReadBetween(when, t0, t1)
  {
    forall k | k in when ensures k in keys && t0 <= when[k] <= t1 {
      var i :| 0 <= i < |visits| && visits[i].key == k;
      assert when[k] == visits[i].now == clock[i];
    }
  }

  /**
   * A pass of the sweeper over the text never meets an unreadable timestamp and has the effect of one sweep over
   * the numbers, every key being examined at one of the readings of the clock.
   */
  lemma PassRefinesSweep(raw: State<bytes>, w: World, timeout: int, visits: seq<Visit>, clock: seq<int>, t0: int, t1: int)
    requires Spells(raw, w.state) && Underway(raw.stamps.Keys, {}, visits, clock)
    requires forall i | 0 <= i < |clock| :: t0 <= clock[i] <= t1
    ensures forall k :: !Unreadable(raw.stamps, k)
    ensures var step := Sweep(WhenOf(visits));
            && Enabled(w, step) && ReadBetween(step.when, t0, t1)
            && Spells(Swept(raw, timeout, visits), Apply(w, timeout, step).state)
  {
    var when := WhenOf(visits);
    WhenExactly(visits);
    CompletePass(raw.stamps.Keys, visits, clock, when, t0, t1);
    SweptIsForget(raw, timeout, visits);
    SpelledSweep(raw, w.state, timeout, when);
  }

  // ------------------------------------------------------------------ the exporter object

  class Exporter {
    var counting: bool
    var counter: nat
    var registered: bool
    var cache: map<bytes, GaugeId>
    var stamps: map<bytes, bytes>
    var family: map<Labels, GaugeId>
    var value: map<GaugeId, nat>
    var next: GaugeId
    var timeout: int

    function Snapshot(): State<bytes>
      reads this
    {
      State(registered, cache, stamps, family, value, next)
    }

    constructor (timeout: int)
      ensures Spells(Snapshot(), EMPTY) && counter == 0 && this.timeout == timeout && !counting
    {
      counting, counter, registered := false, 0, false;
      cache, stamps, family, value, next := map[], map[], map[], map[], 0;
      this.timeout := timeout;
    }

    /** set_metrics up to the lock: the counter goes up, then the clock is read. */
    method Begin(e: Event, now: int) returns (p: Pending)
      modifies `counter
      ensures counter == old(counter) + (if counting then 1 else 0)
      ensures p == Prepare(e, now)
      ensures p.pid == e.pid && p.now == now && Describes(p.labels, e, now) && p.labels.operation == Operation(e.flag)
    {
      if counting {
        counter := counter + 1;
      }
      p := Pending(e.pid, LabelsOf(e, now), now);
    }

    /** set_metrics under the lock. */
    method Finish(p: Pending)
      modifies `registered, `cache, `stamps, `family, `value, `next
      ensures Snapshot() == Commit(old(Snapshot()), p, ToString(p.now))
      ensures stamps == old(stamps)[Key(p.pid) := ToString(p.now)]
      ensures Key(p.pid) in cache && value == old(value)[cache[Key(p.pid)] := p.pid]
      ensures Key(p.pid) in old(cache) ==> cache == old(cache) && family == old(family)
      ensures Key(p.pid) !in old(cache) ==>
              && p.labels in family && cache == old(cache)[Key(p.pid) := family[p.labels]]
              && family == if p.labels in old(family) then old(family) else old(family)[p.labels := old(next)]
    {
      var key := Key(p.pid);
      var gauge := 0;
      if key in cache {
        gauge := cache[key];
      } else {
        if !registered {
          registered := true;
        }
        if p.labels in family {
          gauge := family[p.labels];
        } else {
          gauge := next;
          family := family[p.labels := gauge];
          next := next + 1;
        }
        cache := cache[key := gauge];
      }
      value := value[gauge := p.pid];
      stamps := stamps[key := ToString(p.now)];
    }

    /** The body of the sweeper's loop: one entry looked at, and erased when it has outlived the timeout. */
    method SweepEntry(key: bytes, now: int) returns (threw: bool)
      requires key in stamps && (!registered ==> family == map[])
      modifies `cache, `stamps, `family
      ensures threw <==> Stol(old(stamps)[key]) == None
      ensures Snapshot() == Examined(old(Snapshot()), timeout, Visit(key, now))
      ensures forall k | k in old(stamps) && k != key :: k in stamps && stamps[k] == old(stamps)[k]
      ensures !registered ==> family == map[]
    {
      var timestamp := Stol(stamps[key]);
      if timestamp == None {
        return true;
      }
      threw := false;
      if now - timestamp.value > timeout {
        assert GaugesOf(Snapshot(), {key}) == if key in cache then {cache[key]} else {};
        assert Without(family, {}) == family;
        if key in cache {
          if registered {
            family := Without(family, {cache[key]});
          }
        }
        cache := cache - {key};
        stamps := stamps - {key};
      }
    }

    /**
     * One pass of the sweeper under the lock. Every entry is met once, in some order, and may be erased while the
     * loop stands on it; `clock` holds the successive clock readings. A timestamp that cannot be read ends the pass.
     */
    method SweepOnce(clock: seq<int>) returns (threw: bool, ghost visits: seq<Visit>, ghost left: set<bytes>)
      requires !registered ==> family == map[]
      requires |clock| >= |stamps|
      modifies `cache, `stamps, `family
      ensures Underway(old(stamps).Keys, left, visits, clock)
      ensures if threw then visits != [] && Unreadable(old(stamps), visits[|visits| - 1].key) else left == {}
      ensures Snapshot() == Swept(old(Snapshot()), timeout, visits)
    {
      ghost var before := Snapshot();
      var todo := stamps.Keys;
      var i := 0;
      visits, threw := [], false;
      while todo != {} && !threw
        invariant i == |visits| && Underway(before.stamps.Keys, todo, visits, clock)
        invariant Untouched(stamps, before.stamps, todo)
        invariant Snapshot() == Swept(before, timeout, visits)
        invariant threw ==> visits != [] && Unreadable(before.stamps, visits[|visits| - 1].key)
        invariant !registered ==> family == map[]
        decreases |todo|
      {
        var key :| key in todo;
        assert key in stamps && stamps[key] == before.stamps[key];
        UnderwayStep(before.stamps.Keys, todo, visits, clock, key);
        SweptStep(before, timeout, visits, Visit(key, clock[i]));
        threw := SweepEntry(key, clock[i]);
        visits := visits + [Visit(key, clock[i])];
        todo := todo - {key};
        i := i + 1;
      }
      left := todo;
    }
  }

  // ------------------------------------------------------------------ a whole run of the object

  /** What the threads do next: begin set_metrics, finish the i-th one begun and not finished, or one pass of the sweeper. */
  datatype Action = Started(e: Event, now: int) | Finished(i: nat) | Passed(clock: nat -> int)

  predicate Representable(time: int) {
    -LONG_LIMIT <= time < LONG_LIMIT
  }

  predicate AllRepresentable(pending: seq<Pending>) {
    forall i | 0 <= i < |pending| :: Representable(pending[i].now)
  }

  /** The object spells the last world of a run, and the begun updates are the run's. */
  ghost predicate Follows(raw: State<bytes>, pending: seq<Pending>, timeout: int, worlds: seq<World>, steps: seq<Step>) {
    && Run(timeout, worlds, steps)
    && Spells(raw, worlds[|steps|].state)
    && pending == worlds[|steps|].pending
  }

  lemma RunFurther(timeout: int, worlds: seq<World>, steps: seq<Step>, step: Step)
    requires Run(timeout, worlds, steps) && Enabled(worlds[|steps|], step)
    ensures Run(timeout, worlds + [Apply(worlds[|steps|], timeout, step)], steps + [step])
  {
    var ws, ss := worlds + [Apply(worlds[|steps|], timeout, step)], steps + [step];
    forall i | 0 <= i < |ss| ensures Enabled(ws[i], ss[i]) && ws[i + 1] == Apply(ws[i], timeout, ss[i]) {
      if i < |steps| {
        assert ws[i] == worlds[i] && ws[i + 1] == worlds[i + 1] && ss[i] == steps[i];
      }
    }
  }

  /** The next step of a run, the object keeping up with it. */
  lemma FollowsFurther(raw: State<bytes>, pending: seq<Pending>, timeout: int, worlds: seq<World>, steps: seq<Step>, step: Step)
    requires Run(timeout, worlds, steps) && Enabled(worlds[|steps|], step)
    requires Spells(raw, Apply(worlds[|steps|], timeout, step).state)
    requires pending == Apply(worlds[|steps|], timeout, step).pending
    ensures Follows(raw, pending, timeout, worlds + [Apply(worlds[|steps|], timeout, step)], steps + [step])
  {
    RunFurther(timeout, worlds, steps, step);
  }

  lemma NothingCached<T>(s: State<T>)
    requires SeriesAgree(s) && s.cache == map[]
    ensures s.family == map[]
  {
    assert forall l | l in s.family :: SeriesCached(s, l);
  }

  /** What a pass of the sweeper relies on holds wherever a run has led. */
  lemma ReadyToSweep(raw: State<bytes>, w: World)
    requires Spells(raw, w.state) && Sound(w)
    ensures !raw.registered ==> raw.family == map[]
    ensures forall k :: !Unreadable(raw.stamps, k)
  {
    if !raw.registered {
      NothingCached(w.state);
    }
  }

  /**
   * Any interleaving carried out on a fresh object is one of the runs above, so that all that holds of them holds
   * of the object; and no pass of the sweeper throws.
   */
  method Interleave(x: Exporter, actions: seq<Action>)
    returns (pending: seq<Pending>, ghost worlds: seq<World>, ghost steps: seq<Step>)
    requires Spells(x.Snapshot(), EMPTY)
    requires forall i | 0 <= i < |actions| && actions[i].Started? :: Representable(actions[i].now)
    modifies x
    ensures x.timeout == old(x.timeout)
    ensures Follows(x.Snapshot(), pending, x.timeout, worlds, steps)
    ensures Agrees(worlds[|steps|].state)
  {
    pending, worlds, steps := [], [World(EMPTY, [])], [];
    for n := 0 to |actions|
      invariant x.timeout == old(x.timeout)
      invariant Follows(x.Snapshot(), pending, x.timeout, worlds, steps)
      invariant AllRepresentable(pending)
    {
      ghost var w, step := worlds[|steps|], Sweep(map[]);
      match actions[n] {
        case Started(e, now) =>
          var p := x.Begin(e, now);
          pending, step := pending + [p], Sample(e, now);
        case Finished(i) =>
          if i >= |pending| {
            continue;
          }
          Complete(x, pending[i], w.state);
          pending, step := pending[..i] + pending[i + 1..], Locked(i);
        case Passed(clock) =>
          AlwaysSound(x.timeout, worlds, steps, |steps|);
          step := Pass(x, clock, w);
      }
      FollowsFurther(x.Snapshot(), pending, x.timeout, worlds, steps, step);
      worlds, steps := worlds + [Apply(w, x.timeout, step)], steps + [step];
    }
    AlwaysSound(x.timeout, worlds, steps, |steps|);
  }

  /** The locked half of set_metrics on the object. */
  method Complete(x: Exporter, p: Pending, ghost s: State<int>)
    requires Spells(x.Snapshot(), s) && Representable(p.now)
    modifies x`registered, x`cache, x`stamps, x`family, x`value, x`next
    ensures Spells(x.Snapshot(), Commit(s, p, p.now))
  {
    SpelledCommit(x.Snapshot(), s, p);
    x.Finish(p);
  }

  /** One pass of the sweeper on the object. */
  method Pass(x: Exporter, clock: nat -> int, ghost w: World) returns (ghost sweep: Step)
    requires Spells(x.Snapshot(), w.state) && Sound(w)
    modifies x`cache, x`stamps, x`family
    ensures Enabled(w, sweep) && sweep.Sweep?
    ensures Spells(x.Snapshot(), Apply(w, x.timeout, sweep).state)
  {
    ReadyToSweep(x.Snapshot(), w);
    ghost var raw := x.Snapshot();
    var n := |x.stamps|;
    var readings := seq(n, i requires 0 <= i < n => clock(i));
    var t0, t1 := Bounds(readings);
    var threw, visits, left := x.SweepOnce(readings);
    assert !threw && left == {};
    PassRefinesSweep(raw, w, x.timeout, visits, readings, t0, t1);
    sweep := Sweep(WhenOf(visits));
  }

  lemma Bounds(ts: seq<int>) returns (t0: int, t1: int)
    ensures forall i | 0 <= i < |ts| :: t0 <= ts[i] <= t1
  {
    t0, t1 := 0, 0;
    for n := 0 to |ts|
      invariant forall i | 0 <= i < n :: t0 <= ts[i] <= t1
    {
      t0, t1 := if ts[n] < t0 then ts[n] else t0, if ts[n] > t1 then ts[n] else t1;
    }
  }
}

/**
 * The ancestry walk: src/post.cpp, generate_proc_trace, get_procinfo_by_pid_from_map and add_ptrace,
 * over whatever the exec map and /proc answer from one iteration to the next.
 */
module Ancestry {
  import opened Text
  import opened Utf8
  import opened StatLine

  /** What one iteration may look at: the exec map, and the stat line of every process /proc shows. */
  datatype View = View(execMap: map<nat, ProcInfo>, stat: map<nat, bytes>)

  /** The loop's variables: the process looked at and the buffer the previous lookup left behind. */
  datatype Cursor = Cursor(pid: nat, buffer: ProcInfo)

  datatype Entry = Entry(cmd: bytes, pid: nat)

  const ZEROED := ProcInfo(0, [], [[], [], [], []])

  function StatOf(v: View, pid: nat): Option<bytes> {
    if pid in v.stat then Some(v.stat[pid]) else None
  }

  /** The map first, /proc when the map has no entry. */
  function LookupIn(v: View, c: Cursor): Lookup {
    if c.pid in v.execMap then Found(v.execMap[c.pid]) else FromStat(c.buffer, c.pid, StatOf(v, c.pid))
  }

  function CommandText(info: ProcInfo): bytes {
    Sanitized(Join([info.comm] + info.args, SPACE))
  }

  /** The answer to the lookup for a cursor in each iteration. */
  type Lookups = (nat, Cursor) -> Lookup

  function Answers(views: nat -> View): Lookups {
    (i: nat, c: Cursor) => LookupIn(views(i), c)
  }

  predicate Stops(look: Lookups, i: nat, c: Cursor) {
    c.pid == 0 || !look(i, c).Found?
  }

  /** The loop's variables after a full iteration. */
  function Advance(look: Lookups, i: nat, c: Cursor): Cursor
    requires !Stops(look, i, c)
  {
    var info := look(i, c).info;
    Cursor(info.parent, info)
  }

  /** The walk that starts with iteration i ends after at most n full iterations. */
  predicate HaltsWithin(look: Lookups, i: nat, c: Cursor, n: nat)
    decreases n
  {
    Stops(look, i, c) || (n > 0 && HaltsWithin(look, i + 1, Advance(look, i, c), n - 1))
  }

  ghost predicate Halts(look: Lookups, i: nat, c: Cursor) {
    exists n: nat :: HaltsWithin(look, i, c, n)
  }

  /** The processes the walk finds, each with what the lookup said about it. */
  function Walk(look: Lookups, i: nat, c: Cursor, n: nat): seq<Cursor>
    requires HaltsWithin(look, i, c, n)
    decreases n
  {
    if Stops(look, i, c) then []
    else
      var next := Advance(look, i, c);
      [Cursor(c.pid, next.buffer)] + Walk(look, i + 1, next, n - 1)
  }

  /** Whether the walk ends because a lookup throws, and not at parent 0 or at a failed lookup. */
  predicate Throws(look: Lookups, i: nat, c: Cursor, n: nat)
    requires HaltsWithin(look, i, c, n)
    decreases n
  {
    if Stops(look, i, c) then c.pid != 0 && look(i, c).Threw?
    else Throws(look, i + 1, Advance(look, i, c), n - 1)
  }

  function EntryOf(found: Cursor): Entry {
    Entry(CommandText(found.buffer), found.pid)
  }

  /** The trace published for a walk. */
  function Emitted(walk: seq<Cursor>): seq<Entry> {
    seq(|walk|, i requires 0 <= i < |walk| => EntryOf(walk[i]))
  }

  ghost predicate ReadableStats(views: nat -> View) {
    forall i: nat, p: nat | p in views(i).stat :: |views(i).stat[p]| <= MAX_STRING
  }

  /** One iteration's lookups; get_procinfo_by_pid_from_system runs only when the map has no entry. */
  method LookUp(view: View, c: Cursor) returns (answer: Lookup)
    requires c.pid in view.stat ==> |view.stat[c.pid]| <= MAX_STRING
    ensures answer == LookupIn(view, c)
  {
    if c.pid in view.execMap {
      return Found(view.execMap[c.pid]);
    }
    answer := GetProcInfoFromSystem(c.buffer, c.pid, StatOf(view, c.pid));
  }

  /** The walk from `start` has found `done` and goes on from iteration i. */
  ghost predicate Underway(look: Lookups, start: Cursor, n: nat, done: seq<Cursor>, i: nat, c: Cursor, left: nat) {
    && HaltsWithin(look, 0, start, n) && HaltsWithin(look, i, c, left)
    && done + Walk(look, i, c, left) == Walk(look, 0, start, n)
    && (Throws(look, i, c, left) <==> Throws(look, 0, start, n))
  }

  lemma UnderwayStep(look: Lookups, start: Cursor, n: nat, done: seq<Cursor>, i: nat, c: Cursor, left: nat)
    requires Underway(look, start, n, done, i, c, left)
    ensures Stops(look, i, c) ==>
            && done == Walk(look, 0, start, n)
            && (Throws(look, 0, start, n) <==> c.pid != 0 && look(i, c).Threw?)
    ensures !Stops(look, i, c) ==>
            var next := Advance(look, i, c);
            left > 0 && Underway(look, start, n, done + [Cursor(c.pid, next.buffer)], i + 1, next, left - 1)
  {
    if !Stops(look, i, c) {
      var next := Advance(look, i, c);
      var rest := Walk(look, i + 1, next, left - 1);
      assert done + ([Cursor(c.pid, next.buffer)] + rest) == (done + [Cursor(c.pid, next.buffer)]) + rest;
    }
  }

  lemma EmittedMore(walk: seq<Cursor>, found: Cursor)
    ensures Emitted(walk + [found]) == Emitted(walk) + [EntryOf(found)]
  {
  }

  // ------------------------------------------------------------------ what a trace says of each process

  /** The argument slots at entry k: those of the last entry so far that came from the map. */
  function ArgsLeft(views: nat -> View, trace: seq<Entry>, k: nat): seq<bytes>
    requires k <= |trace|
  {
    if k == 0 then [[], [], [], []]
    else if trace[k - 1].pid in views(k - 1).execMap then views(k - 1).execMap[trace[k - 1].pid].args
    else ArgsLeft(views, trace, k - 1)
  }

  function Words(comm: bytes, args: seq<bytes>): bytes {
    Join(SanitizedEach([comm] + args), SPACE)
  }

  /** Entry k tells what the map says of its process, whatever /proc holds, and only else what /proc says; `parent` likewise. */
  ghost predicate EntryTold(views: nat -> View, trace: seq<Entry>, k: nat, parent: nat)
    requires k < |trace|
  {
    var v, pid := views(k), trace[k].pid;
    if pid in v.execMap then
      && trace[k].cmd == Words(v.execMap[pid].comm, v.execMap[pid].args)
      && parent == v.execMap[pid].parent
    else
      && pid in v.stat && 0 < pid <= 4194304
      && exists info: ProcInfo :: TellsProcess(v.stat[pid], info) && parent == info.parent
                                  && trace[k].cmd == Words(info.comm, ArgsLeft(views, trace, k))
  }

  /** Nothing follows: parent 0, or a process that neither the map nor /proc tells of. */
  predicate TraceEnds(v: View, pid: nat) {
    pid == 0 || (pid !in v.execMap && (pid > 4194304 || pid !in v.stat || TooFewFields(v.stat[pid])))
  }

  ghost predicate LinkTold(views: nat -> View, trace: seq<Entry>, parents: seq<nat>, k: nat)
    requires k < |trace| && |parents| == |trace| + 1
  {
    trace[k].pid == parents[k] && EntryTold(views, trace, k, parents[k + 1])
  }

  /** The trace starts at `pid`, goes from each process to the parent told of it, and ends only where nothing follows. */
  ghost predicate ToldBy(views: nat -> View, pid: nat, trace: seq<Entry>, parents: seq<nat>) {
    && |parents| == |trace| + 1 && parents[0] == pid
    && (forall k | 0 <= k < |trace| :: LinkTold(views, trace, parents, k))
    && TraceEnds(views(|trace|), parents[|trace|])
  }

  ghost predicate Told(views: nat -> View, pid: nat, trace: seq<Entry>) {
    exists parents :: ToldBy(views, pid, trace, parents)
  }

  /** The loop's variables when the walk has found its first k processes. */
  function CursorAt(walk: seq<Cursor>, c: Cursor, k: nat): Cursor
    requires k <= |walk|
  {
    if k == 0 then c else Cursor(walk[k - 1].buffer.parent, walk[k - 1].buffer)
  }

  lemma CursorBehind(first: Cursor, rest: seq<Cursor>, c: Cursor, k: nat)
    requires k <= |rest|
    ensures CursorAt([first] + rest, c, k + 1) == CursorAt(rest, Cursor(first.buffer.parent, first.buffer), k)
  {
  }

  lemma {:induction false} WalkSteps(look: Lookups, i: nat, c: Cursor, n: nat, k: nat)
    requires HaltsWithin(look, i, c, n) && k < |Walk(look, i, c, n)|
    ensures var w := Walk(look, i, c, n);
            w[k].pid == CursorAt(w, c, k).pid != 0 && look(i + k, CursorAt(w, c, k)) == Found(w[k].buffer)
    decreases k
  {
    if k == 0 {
    } else {
      var next := Advance(look, i, c);
      WalkSteps(look, i + 1, next, n - 1, k - 1);
      CursorBehind(Cursor(c.pid, next.buffer), Walk(look, i + 1, next, n - 1), c, k - 1);
    }
  }

  lemma {:induction false} WalkEnd(look: Lookups, i: nat, c: Cursor, n: nat)
    requires HaltsWithin(look, i, c, n)
    ensures var w := Walk(look, i, c, n);
            var end := CursorAt(w, c, |w|);
            && Stops(look, i + |w|, end)
            && (Throws(look, i, c, n) <==> end.pid != 0 && look(i + |w|, end).Threw?)
    decreases n
  {
    if Stops(look, i, c) {
    } else {
      var next := Advance(look, i, c);
      var rest := Walk(look, i + 1, next, n - 1);
      WalkEnd(look, i + 1, next, n - 1);
      CursorBehind(Cursor(c.pid, next.buffer), rest, c, |rest|);
    }
  }

  /** What a single lookup finds: the map's entry, whatever /proc holds, and only else what the stat line says. */
  lemma LookupExactly(v: View, c: Cursor)
    requires c.pid != 0
    ensures c.pid in v.execMap ==> LookupIn(v, c) == Found(v.execMap[c.pid])
    ensures c.pid !in v.execMap && LookupIn(v, c).Found? ==>
            && c.pid in v.stat && c.pid <= 4194304
            && TellsProcess(v.stat[c.pid], LookupIn(v, c).info) && LookupIn(v, c).info.args == c.buffer.args
    ensures LookupIn(v, c).Missing? <==>
            c.pid !in v.execMap && (c.pid > 4194304 || c.pid !in v.stat || TooFewFields(v.stat[c.pid]))
  {
    FromStatExactly(c.buffer, c.pid, StatOf(v, c.pid));
  }

  /** The argument slots of a process found: its map entry's, or those left from before. */
  predicate ArgsKnown(v: View, at: Cursor, found: Cursor) {
    && found.pid == at.pid
    && found.buffer.args == if found.pid in v.execMap then v.execMap[found.pid].args else at.buffer.args
  }

  /** Its parent and command: its map entry's, whatever /proc holds, and only else those of the stat line. */
  predicate StoryKnown(v: View, found: Cursor) {
    if found.pid in v.execMap then found.buffer == v.execMap[found.pid]
    else found.pid in v.stat && 0 < found.pid <= 4194304 && TellsProcess(v.stat[found.pid], found.buffer)
  }

  lemma FoundKnown(look: Lookups, views: nat -> View, k: nat, at: Cursor, found: Cursor)
    requires look == Answers(views) && found.pid == at.pid != 0 && look(k, at) == Found(found.buffer)
    ensures ArgsKnown(views(k), at, found) && StoryKnown(views(k), found)
  {
    LookupExactly(views(k), at);
  }

  lemma WalkKnown(look: Lookups, views: nat -> View, c: Cursor, n: nat, k: nat)
    requires look == Answers(views) && HaltsWithin(look, 0, c, n) && k < |Walk(look, 0, c, n)|
    ensures var w := Walk(look, 0, c, n);
            ArgsKnown(views(k), CursorAt(w, c, k), w[k]) && StoryKnown(views(k), w[k])
  {
    var w := Walk(look, 0, c, n);
    WalkSteps(look, 0, c, n, k);
    FoundKnown(look, views, k, CursorAt(w, c, k), w[k]);
  }

  predicate ArgsKnownAt(views: nat -> View, c: Cursor, walk: seq<Cursor>, k: nat)
    requires k < |walk|
  {
    ArgsKnown(views(k), CursorAt(walk, c, k), walk[k])
  }

  ghost predicate ArgsKnownThroughout(views: nat -> View, c: Cursor, walk: seq<Cursor>) {
    forall k {:trigger ArgsKnownAt(views, c, walk, k)} | 0 <= k < |walk| :: ArgsKnownAt(views, c, walk, k)
  }

  lemma {:induction false} ArgsCarried(views: nat -> View, c: Cursor, walk: seq<Cursor>, trace: seq<Entry>, k: nat)
    requires k <= |walk| == |trace| && c.buffer.args == [[], [], [], []]
    requires forall i | 0 <= i < |walk| :: trace[i].pid == walk[i].pid
    requires ArgsKnownThroughout(views, c, walk)
    ensures ArgsLeft(views, trace, k) == CursorAt(walk, c, k).buffer.args
  {
    if k == 0 {
    } else {
      var v, found := views(k - 1), walk[k - 1];
      ArgsCarried(views, c, walk, trace, k - 1);
      assert ArgsKnownAt(views, c, walk, k - 1);
      assert trace[k - 1].pid == found.pid;
      assert CursorAt(walk, c, k).buffer == found.buffer;
    }
  }

  lemma LinkKnown(views: nat -> View, trace: seq<Entry>, parents: seq<nat>, k: nat, found: Cursor)
    requires k < |trace| && |parents| == |trace| + 1
    requires trace[k].pid == found.pid == parents[k] && parents[k + 1] == found.buffer.parent
    requires trace[k].cmd == Words(found.buffer.comm, found.buffer.args)
    requires StoryKnown(views(k), found)
    requires found.pid !in views(k).execMap ==> ArgsLeft(views, trace, k) == found.buffer.args
    ensures LinkTold(views, trace, parents, k)
  {
  }

  function PidsReached(walk: seq<Cursor>, c: Cursor): seq<nat> {
    seq(|walk| + 1, k requires 0 <= k <= |walk| => CursorAt(walk, c, k).pid)
  }

  lemma EmittedTells(walk: seq<Cursor>, k: nat)
    requires k < |walk|
    ensures Emitted(walk)[k].pid == walk[k].pid && Emitted(walk)[k].cmd == Words(walk[k].buffer.comm, walk[k].buffer.args)
  {
    CommandTextWords(walk[k].buffer);
  }

  lemma LinkTells(views: nat -> View, c: Cursor, walk: seq<Cursor>, trace: seq<Entry>, parents: seq<nat>, k: nat)
    requires k < |walk| == |trace| && |parents| == |walk| + 1 && c.buffer.args == [[], [], [], []]
    requires forall i | 0 <= i < |walk| :: trace[i].pid == walk[i].pid
    requires ArgsKnownThroughout(views, c, walk)
    requires trace[k].cmd == Words(walk[k].buffer.comm, walk[k].buffer.args)
    requires walk[k].pid == parents[k] && parents[k + 1] == walk[k].buffer.parent
    requires StoryKnown(views(k), walk[k])
    ensures LinkTold(views, trace, parents, k)
  {
    ArgsCarried(views, c, walk, trace, k);
    assert ArgsKnownAt(views, c, walk, k);
    LinkKnown(views, trace, parents, k, walk[k]);
  }

  lemma Reached(walk: seq<Cursor>, c: Cursor, k: nat)
    requires k < |walk|
    ensures PidsReached(walk, c)[k] == CursorAt(walk, c, k).pid
    ensures PidsReached(walk, c)[k + 1] == walk[k].buffer.parent
  {
  }

  lemma EndKnown(look: Lookups, views: nat -> View, c: Cursor, n: nat)
    requires look == Answers(views) && HaltsWithin(look, 0, c, n) && !Throws(look, 0, c, n)
    ensures var w := Walk(look, 0, c, n); TraceEnds(views(|w|), CursorAt(w, c, |w|).pid)
  {
    var w := Walk(look, 0, c, n);
    var end := CursorAt(w, c, |w|);
    WalkEnd(look, 0, c, n);
    AnswersAt(views, |w|, end);
    if end.pid != 0 {
      LookupExactly(views(|w|), end);
    }
  }

  lemma WalkTold(look: Lookups, views: nat -> View, pid: nat, n: nat)
    requires look == Answers(views)
    requires HaltsWithin(look, 0, Cursor(pid, ZEROED), n) && !Throws(look, 0, Cursor(pid, ZEROED), n)
    ensures Told(views, pid, Emitted(Walk(look, 0, Cursor(pid, ZEROED), n)))
  {
    var c := Cursor(pid, ZEROED);
    var w := Walk(look, 0, c, n);
    var trace, parents := Emitted(w), PidsReached(w, c);
    forall k | 0 <= k < |w|
      ensures ArgsKnownAt(views, c, w, k) && StoryKnown(views(k), w[k])
      ensures trace[k].pid == w[k].pid
    {
      WalkKnown(look, views, c, n, k);
      EmittedTells(w, k);
    }
    forall k | 0 <= k < |w| ensures LinkTold(views, trace, parents, k) {
      EmittedTells(w, k);
      Reached(w, c, k);
      LinkTells(views, c, w, trace, parents, k);
    }
    EndKnown(look, views, c, n);
    assert ToldBy(views, pid, trace, parents);
  }

  lemma AnswersAt(views: nat -> View, i: nat, c: Cursor)
    ensures Answers(views)(i, c) == LookupIn(views(i), c)
  {
  }

  /** The unbounded loop, run where it halts; None is an exception of the stat parser, which nothing here catches. */
  method GenerateProcTrace(views: nat -> View, pid: nat, ghost n: nat) returns (trace: Option<seq<Entry>>)
    requires ReadableStats(views)
    requires pid > 1 ==> HaltsWithin(Answers(views), 0, Cursor(pid, ZEROED), n)
    ensures trace == None <==> pid > 1 && Throws(Answers(views), 0, Cursor(pid, ZEROED), n)
    ensures pid <= 1 ==> trace == Some([])
    ensures pid > 1 && trace.Some? ==> trace.value == Emitted(Walk(Answers(views), 0, Cursor(pid, ZEROED), n))
    ensures pid > 1 && trace.Some? ==> Told(views, pid, trace.value)
  {
    if pid <= 1 {
      return Some([]);
    }
    var entries: seq<Entry> := [];
    var procId, pinfo := pid, ZEROED;
    var i := 0;
    ghost var look, done, left := Answers(views), [], n;
    while true
      invariant Underway(look, Cursor(pid, ZEROED), n, done, i, Cursor(procId, pinfo), left)
      invariant entries == Emitted(done)
      decreases left
    {
      UnderwayStep(look, Cursor(pid, ZEROED), n, done, i, Cursor(procId, pinfo), left);
      if procId == 0 {
        break;
      }
      var answer := LookUp(views(i), Cursor(procId, pinfo));
      AnswersAt(views, i, Cursor(procId, pinfo));
      if answer.Threw? {
        return None;
      }
      if answer.Missing? {
        break;
      }
      pinfo := answer.info;
      var cmd := Sanitize(Join([pinfo.comm] + pinfo.args, SPACE));
      entries := entries + [Entry(cmd, procId)];
      EmittedMore(done, Cursor(procId, pinfo));
      done := done + [Cursor(procId, pinfo)];
      procId := pinfo.parent;
      i, left := i + 1, left - 1;
    }
    WalkTold(look, views, pid, n);
    return Some(entries);
  }

  /** `rank` falls with every full iteration, whatever the buffer holds. */
  ghost predicate Descends(look: Lookups, rank: (nat, nat) -> nat) {
    forall i: nat, c: Cursor | !Stops(look, i, c) ::
      && rank(i, c.pid) > 0
      && (Advance(look, i, c).pid == 0 || rank(i + 1, Advance(look, i, c).pid) < rank(i, c.pid))
  }

  lemma {:induction false} RankHalts(look: Lookups, rank: (nat, nat) -> nat, i: nat, c: Cursor, n: nat)
    requires Descends(look, rank) && rank(i, c.pid) <= n
    ensures HaltsWithin(look, i, c, n)
    decreases n
  {
    if Stops(look, i, c) {
    } else {
      var d := Advance(look, i, c);
      if d.pid == 0 {
        assert Stops(look, i + 1, d);
      } else {
        RankHalts(look, rank, i + 1, d, n - 1);
      }
    }
  }

  // ------------------------------------------------------------------ a fixed view

  /** A map and a /proc that do not change. */
  function Fixed(v: View): Lookups {
    (_, c) => LookupIn(v, c)
  }

  /** The parent the lookup reports, whatever the buffer holds. */
  function ParentIn(v: View, pid: nat): Option<nat> {
    if pid == 0 then None
    else match LookupIn(v, Cursor(pid, ZEROED))
      case Found(info) => Some(info.parent)
      case _ => None
  }

  /** Parent 0, or a process neither the map nor /proc knows; not one whose stat line makes the parser throw. */
  predicate Ends(v: View, pid: nat) {
    pid == 0 || LookupIn(v, Cursor(pid, ZEROED)).Missing?
  }

  lemma ParentIgnoresBuffer(v: View, i: nat, c: Cursor)
    ensures Stops(Fixed(v), i, c) <==> ParentIn(v, c.pid).None?
    ensures Stops(Fixed(v), i, c) ==> (Ends(v, c.pid) <==> c.pid == 0 || !Fixed(v)(i, c).Threw?)
    ensures !Stops(Fixed(v), i, c) ==> ParentIn(v, c.pid) == Some(Advance(Fixed(v), i, c).pid)
  {
  }

  /** The pid reached after k lookups; None once the walk has ended. */
  function Chain(v: View, pid: nat, k: nat): Option<nat>
    decreases k
  {
    if k == 0 then Some(pid)
    else match ParentIn(v, pid)
      case None => None
      case Some(parent) => Chain(v, parent, k - 1)
  }

  ghost predicate CycleReachable(v: View, pid: nat) {
    exists j: nat, k: nat :: j < k && Chain(v, pid, j).Some? && Chain(v, pid, j) == Chain(v, pid, k)
  }

  lemma {:induction false} ChainCompose(v: View, pid: nat, j: nat, m: nat)
    ensures Chain(v, pid, j + m) == match Chain(v, pid, j) case None => None case Some(q) => Chain(v, q, m)
    decreases j
  {
    if j == 0 || ParentIn(v, pid).None? {
    } else {
      ChainCompose(v, ParentIn(v, pid).value, j - 1, m);
    }
  }

  lemma {:induction false} HaltsWithinChain(v: View, i: nat, c: Cursor, n: nat)
    ensures HaltsWithin(Fixed(v), i, c, n) <==> Chain(v, c.pid, n + 1).None?
    decreases n
  {
    ParentIgnoresBuffer(v, i, c);
    if Stops(Fixed(v), i, c) {
    } else {
      assert Chain(v, c.pid, n + 1) == Chain(v, Advance(Fixed(v), i, c).pid, n);
      if n > 0 {
        HaltsWithinChain(v, i + 1, Advance(Fixed(v), i, c), n - 1);
      }
    }
  }

  /** A reachable cycle keeps the chain going for ever. */
  lemma {:induction false} CycleGoesOn(v: View, pid: nat, j: nat, k: nat, m: nat)
    requires j < k && Chain(v, pid, j).Some? && Chain(v, pid, j) == Chain(v, pid, k)
    ensures Chain(v, pid, m).Some?
    decreases m
  {
    if m <= k {
      ChainCompose(v, pid, m, k - m);
    } else {
      CycleGoesOn(v, pid, j, k, m - (k - j));
      ChainCompose(v, pid, j, m - k);
      ChainCompose(v, pid, k, m - k);
    }
  }

  function Visited(v: View, pid: nat, k: nat): set<nat>
    requires forall i: nat | i < k :: Chain(v, pid, i).Some?
  {
    if k == 0 then {} else Visited(v, pid, k - 1) + {Chain(v, pid, k - 1).value}
  }

  lemma {:induction false} VisitedAt(v: View, pid: nat, k: nat, x: nat) returns (i: nat)
    requires forall i: nat | i < k :: Chain(v, pid, i).Some?
    requires x in Visited(v, pid, k)
    ensures i < k && Chain(v, pid, i) == Some(x)
  {
    if x == Chain(v, pid, k - 1).value {
      i := k - 1;
    } else {
      i := VisitedAt(v, pid, k - 1, x);
    }
  }

  lemma KnownProcess(v: View, pid: nat)
    requires ParentIn(v, pid).Some?
    ensures pid in v.execMap.Keys + v.stat.Keys
  {
  }

  lemma VisitedTwice(v: View, pid: nat, k: nat)
    requires forall i: nat | i <= k :: Chain(v, pid, i).Some?
    requires Chain(v, pid, k).value in Visited(v, pid, k)
    ensures CycleReachable(v, pid)
  {
    var i := VisitedAt(v, pid, k, Chain(v, pid, k).value);
    assert Chain(v, pid, i) == Chain(v, pid, k);
  }

  lemma {:induction false} VisitedDistinct(v: View, pid: nat, k: nat)
    requires forall i: nat | i <= k :: Chain(v, pid, i).Some?
    requires !CycleReachable(v, pid)
    ensures |Visited(v, pid, k)| == k
    ensures Visited(v, pid, k) <= v.execMap.Keys + v.stat.Keys
  {
    if k == 0 {
    } else {
      VisitedDistinct(v, pid, k - 1);
      var x := Chain(v, pid, k - 1).value;
      if x in Visited(v, pid, k - 1) {
        VisitedTwice(v, pid, k - 1);
      }
      ChainCompose(v, pid, k - 1, 1);
      KnownProcess(v, x);
    }
  }

  lemma SubsetSize(a: set<nat>, b: set<nat>)
    requires a <= b
    ensures |a| <= |b|
  {
    if a != {} {
      var x :| x in a;
      SubsetSize(a - {x}, b - {x});
    }
  }

  lemma CycleNeverHalts(v: View, c: Cursor, n: nat)
    requires CycleReachable(v, c.pid)
    ensures !HaltsWithin(Fixed(v), 0, c, n)
  {
    var j: nat, k: nat :| j < k && Chain(v, c.pid, j).Some? && Chain(v, c.pid, j) == Chain(v, c.pid, k);
    CycleGoesOn(v, c.pid, j, k, n + 1);
    HaltsWithinChain(v, 0, c, n);
  }

  /** A chain longer than the number of known processes meets one of them twice. */
  lemma LongChainCycles(v: View, pid: nat)
    requires Chain(v, pid, |v.execMap.Keys + v.stat.Keys| + 1).Some?
    ensures CycleReachable(v, pid)
  {
    var n := |v.execMap.Keys + v.stat.Keys|;
    forall i: nat | i <= n + 1 ensures Chain(v, pid, i).Some? {
      ChainCompose(v, pid, i, n + 1 - i);
    }
    if !CycleReachable(v, pid) {
      VisitedDistinct(v, pid, n + 1);
      SubsetSize(Visited(v, pid, n + 1), v.execMap.Keys + v.stat.Keys);
    }
  }

  /** Over a fixed map and a fixed /proc the walk ends if and only if no cycle is reachable. */
  lemma HaltsExactly(v: View, pid: nat, buffer: ProcInfo)
    ensures Halts(Fixed(v), 0, Cursor(pid, buffer)) <==> !CycleReachable(v, pid)
  {
    var c, n := Cursor(pid, buffer), |v.execMap.Keys + v.stat.Keys|;
    if CycleReachable(v, pid) {
      forall m: nat ensures !HaltsWithin(Fixed(v), 0, c, m) {
        CycleNeverHalts(v, c, m);
      }
    } else {
      HaltsWithinChain(v, 0, c, n);
      if Chain(v, pid, n + 1).Some? {
        LongChainCycles(v, pid);
      }
      assert HaltsWithin(Fixed(v), 0, c, n);
    }
  }

  // ------------------------------------------------------------------ what the trace says

  /** `pids` starts at `pid`, each is the recorded parent of the one before, and it stops only at parent 0 or a failed lookup. */
  predicate MaximalChain(v: View, pid: nat, pids: seq<nat>)
    decreases |pids|
  {
    match ParentIn(v, pid)
    case None => Ends(v, pid) && pids == []
    case Some(parent) => pids != [] && pids[0] == pid && MaximalChain(v, parent, pids[1..])
  }

  function PidsOf(walk: seq<Cursor>): seq<nat> {
    seq(|walk|, i requires 0 <= i < |walk| => walk[i].pid)
  }

  lemma {:induction false} MaximalChainUnique(v: View, pid: nat, a: seq<nat>, b: seq<nat>)
    requires MaximalChain(v, pid, a) && MaximalChain(v, pid, b)
    ensures a == b
    decreases |a|
  {
    if ParentIn(v, pid).None? {
    } else {
      MaximalChainUnique(v, ParentIn(v, pid).value, a[1..], b[1..]);
      assert a == [a[0]] + a[1..] && b == [b[0]] + b[1..];
    }
  }

  lemma {:induction false} WalkIsMaximalChain(v: View, i: nat, c: Cursor, n: nat)
    requires HaltsWithin(Fixed(v), i, c, n)
    ensures MaximalChain(v, c.pid, PidsOf(Walk(Fixed(v), i, c, n))) <==> !Throws(Fixed(v), i, c, n)
    ensures Throws(Fixed(v), i, c, n) ==> forall pids :: !MaximalChain(v, c.pid, pids)
    decreases n
  {
    ParentIgnoresBuffer(v, i, c);
    if Stops(Fixed(v), i, c) {
    } else {
      var rest := Walk(Fixed(v), i + 1, Advance(Fixed(v), i, c), n - 1);
      WalkIsMaximalChain(v, i + 1, Advance(Fixed(v), i, c), n - 1);
      assert PidsOf(Walk(Fixed(v), i, c, n)) == [c.pid] + PidsOf(rest);
    }
  }

  lemma {:induction false} MaximalChainIsChain(v: View, pid: nat, pids: seq<nat>, k: nat)
    requires MaximalChain(v, pid, pids) && k < |pids|
    ensures Chain(v, pid, k) == Some(pids[k])
    decreases k
  {
    if k == 0 {
    } else {
      MaximalChainIsChain(v, ParentIn(v, pid).value, pids[1..], k - 1);
    }
  }

  /**
   * Over a fixed lookup the trace, where one is published, is the one maximal parent chain from the starting
   * process; where a lookup throws there is no such chain. No pid repeats in it.
   */
  lemma TraceExactly(v: View, pid: nat, n: nat, pids: seq<nat>)
    requires HaltsWithin(Fixed(v), 0, Cursor(pid, ZEROED), n)
    ensures MaximalChain(v, pid, pids) <==>
            !Throws(Fixed(v), 0, Cursor(pid, ZEROED), n) && pids == PidsOf(Walk(Fixed(v), 0, Cursor(pid, ZEROED), n))
    ensures MaximalChain(v, pid, pids) ==> forall j, k | 0 <= j < k < |pids| :: pids[j] != pids[k]
  {
    var c := Cursor(pid, ZEROED);
    WalkIsMaximalChain(v, 0, c, n);
    if MaximalChain(v, pid, pids) {
      MaximalChainUnique(v, pid, pids, PidsOf(Walk(Fixed(v), 0, c, n)));
      HaltsExactly(v, pid, ZEROED);
      forall j, k | 0 <= j < k < |pids| ensures pids[j] != pids[k] {
        MaximalChainIsChain(v, pid, pids, j);
        MaximalChainIsChain(v, pid, pids, k);
      }
    }
  }

  /** It does happen: a stat line cut short makes the walk throw. */
  lemma ShortLineThrows()
    ensures Throws(Fixed(View(map[], map[2 := [0x32]])), 0, Cursor(2, ZEROED), 0)
  {
    var v := View(map[], map[2 := [0x32]]);
    assert StatFields([0x32]) == None;
    assert Fixed(v)(0, Cursor(2, ZEROED)).Threw?;
  }

  /** The command text is the sanitised command followed by the separately sanitised arguments. */
  lemma CommandTextWords(info: ProcInfo)
    ensures CommandText(info) == Join(SanitizedEach([info.comm] + info.args), SPACE)
    ensures WellFormed(CommandText(info))
  {
    SanitizedJoin([info.comm] + info.args);
    SanitizedWellFormed(Join([info.comm] + info.args, SPACE));
  }
}

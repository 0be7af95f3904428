/**
 * Processes coming and going while the tracer runs, and the two exec handlers of src/filetrace.bpf.c
 * (enter_execve, sched_process_exec) recording them in exec_map.
 */
module Processes {
  import opened Text
  import opened StatLine
  import opened Ancestry

  const MAX_ENTRIES := 4096

  /**
   * born: the moment each process was created, kept after its exit;
   * parent, comm: what the kernel holds for the living ones; parent 0 ends every ancestry;
   * tail: the fields every stat line carries after the parent.
   */
  datatype System = System(clock: nat, born: map<nat, nat>, parent: map<nat, nat>, comm: map<nat, bytes>,
                           execMap: map<nat, ProcInfo>, tail: seq<bytes>)

  datatype Step =
    | Fork(creator: nat, child: nat)
    | EnterExecve(pid: nat)
    | ProcessExec(pid: nat, name: bytes)
    | Exit(pid: nat, reaper: nat)

  predicate Alive(s: System, pid: nat) {
    pid in s.parent && pid in s.comm
  }

  predicate Earlier(s: System, a: nat, b: nat) {
    a in s.born && b in s.born && s.born[a] < s.born[b]
  }

  /** bpf_map_update_elem: an existing entry is replaced, a new one needs room; the return value is ignored. */
  function Record(s: System, pid: nat): System
    requires Alive(s, pid)
  {
    if pid in s.execMap || |s.execMap| < MAX_ENTRIES
    then s.(execMap := s.execMap[pid := ProcInfo(s.parent[pid], s.comm[pid], [[], [], [], []])])
    else s
  }

  function Adopted(parent: map<nat, nat>, dead: nat, reaper: nat): map<nat, nat> {
    map c | c in parent && c != dead :: if parent[c] == dead then reaper else parent[c]
  }

  /** `reuse` lifts the assumption that a process id is given out once. */
  predicate Enabled(s: System, step: Step, reuse: bool) {
    match step
    case Fork(creator, child) =>
      Alive(s, creator) && 0 < child <= PID_MAX_LIMIT && child !in s.parent && (reuse || child !in s.born)
    case EnterExecve(pid) => Alive(s, pid)
    case ProcessExec(pid, name) => Alive(s, pid) && NUL !in name && |name| <= NAME_LIMIT
    case Exit(pid, reaper) =>
      && Alive(s, pid)
      && forall c | c in s.parent && s.parent[c] == pid :: Alive(s, reaper) && reaper != pid && Earlier(s, reaper, c)
  }

  function Apply(s: System, step: Step): System
    requires Enabled(s, step, true)
  {
    match step
    case Fork(creator, child) =>
      s.(clock := s.clock + 1, born := s.born[child := s.clock],
         parent := s.parent[child := creator], comm := s.comm[child := s.comm[creator]])
    case EnterExecve(pid) => Record(s, pid)
    case ProcessExec(pid, name) => Record(s.(comm := s.comm[pid := name]), pid)
    case Exit(pid, reaper) => s.(parent := Adopted(s.parent, pid, reaper), comm := s.comm - {pid})
  }

  /**
   * Both exec handlers replace the process's entry, or add one while there is room, with its present parent, its
   * name (after the exec in the second handler) and no arguments; nothing else in the map changes.
   */
  lemma ExecRecords(s: System, pid: nat, name: bytes)
    requires Alive(s, pid) && NUL !in name && |name| <= NAME_LIMIT
    ensures var t := Apply(s, EnterExecve(pid));
            t.parent == s.parent && t.comm == s.comm && t.execMap ==
            if pid in s.execMap || |s.execMap| < 4096
            then s.execMap[pid := ProcInfo(s.parent[pid], s.comm[pid], [[], [], [], []])] else s.execMap
    ensures var t := Apply(s, ProcessExec(pid, name));
            t.parent == s.parent && t.comm == s.comm[pid := name] && t.execMap ==
            if pid in s.execMap || |s.execMap| < 4096
            then s.execMap[pid := ProcInfo(s.parent[pid], name, [[], [], [], []])] else s.execMap
  {
  }

  /** A child starts with its creator as parent and with its name; an exit leaves its children, and only them, to the reaper. */
  lemma ForkAndExit(s: System, creator: nat, child: nat, pid: nat, reaper: nat)
    ensures Enabled(s, Fork(creator, child), true) ==>
            var t := Apply(s, Fork(creator, child));
            t.parent == s.parent[child := creator] && t.comm == s.comm[child := s.comm[creator]] && t.execMap == s.execMap
    ensures Enabled(s, Exit(pid, reaper), true) ==>
            var t := Apply(s, Exit(pid, reaper));
            && t.execMap == s.execMap && t.parent.Keys == s.parent.Keys - {pid} && t.comm == s.comm - {pid}
            && forall c | c in t.parent :: t.parent[c] == if s.parent[c] == pid then reaper else s.parent[c]
  {
  }

  predicate ParentEarlier(s: System, pid: nat, parent: nat) {
    parent == 0 || Earlier(s, parent, pid)
  }

  /** Every edge, of the kernel's tree and of the map, leads to an earlier-born process. */
  predicate Ordered(s: System) {
    && (forall p | p in s.parent :: p in s.comm && ParentEarlier(s, p, s.parent[p]))
    && (forall p | p in s.parent :: p in s.born && s.parent[p] <= PID_MAX_LIMIT)
    && (forall p | p in s.execMap :: p in s.born && ParentEarlier(s, p, s.execMap[p].parent))
    && (forall p | p in s.born :: s.born[p] < s.clock && 0 < p <= PID_MAX_LIMIT)
  }

  /** Bounds on the printed command and on the fields behind the parent, far above the kernel's. */
  const NAME_LIMIT := 255
  const TAIL_LIMIT := 0x1_0000

  predicate PlainText(s: System) {
    && (forall p | p in s.comm :: NUL !in s.comm[p] && |s.comm[p]| <= NAME_LIMIT)
    && (forall p | p in s.execMap :: s.execMap[p].args == [[], [], [], []])
    && |Join(s.tail, SPACE)| <= TAIL_LIMIT
    && s.tail != [] && (forall i | 0 <= i < |s.tail| :: IsToken(s.tail[i]) && CLOSE !in s.tail[i])
  }

  predicate Invariant(s: System) {
    Ordered(s) && PlainText(s)
  }

  /** The tracer attaches to a running machine with an empty map. */
  predicate Initial(s: System) {
    Invariant(s) && s.execMap == map[]
  }

  lemma RecordOrdered(s: System, pid: nat)
    requires Ordered(s) && Alive(s, pid)
    ensures Ordered(Record(s, pid))
  {
  }

  lemma StepOrdered(s: System, step: Step)
    requires Ordered(s) && Enabled(s, step, false)
    ensures Ordered(Apply(s, step))
  {
    match step
    case Fork(creator, child) =>
    case EnterExecve(pid) =>
      RecordOrdered(s, pid);
    case ProcessExec(pid, name) =>
      RecordOrdered(s.(comm := s.comm[pid := name]), pid);
    case Exit(pid, reaper) =>
  }

  lemma StepPlainText(s: System, step: Step)
    requires PlainText(s) && Enabled(s, step, true)
    ensures PlainText(Apply(s, step))
  {
    var t := Apply(s, step);
    assert t.tail == s.tail;
    assert forall p | p in t.comm :: NUL !in t.comm[p] && |t.comm[p]| <= NAME_LIMIT;
  }

  /** Births are never rewritten and the map never forgets a process. */
  predicate Extends(s: System, t: System) {
    && (forall p | p in s.born :: p in t.born && t.born[p] == s.born[p])
    && (forall p | p in s.execMap :: p in t.execMap)
  }

  lemma StepExtends(s: System, step: Step)
    requires Ordered(s) && Enabled(s, step, false)
    ensures Extends(s, Apply(s, step))
  {
  }

  // ------------------------------------------------------------------ behaviours

  ghost predicate Next(s: System, t: System) {
    t == s || exists step :: Enabled(s, step, false) && t == Apply(s, step)
  }

  ghost predicate Behaviour(run: nat -> System) {
    Initial(run(0)) && forall i: nat :: Next(run(i), run(i + 1))
  }

  lemma {:induction false} AlwaysInvariant(run: nat -> System, i: nat)
    requires Behaviour(run)
    ensures Invariant(run(i))
  {
    if i == 0 {
    } else {
      AlwaysInvariant(run, i - 1);
      assert Next(run(i - 1), run(i - 1 + 1));
      if run(i) != run(i - 1) {
        var step :| Enabled(run(i - 1), step, false) && run(i) == Apply(run(i - 1), step);
        StepOrdered(run(i - 1), step);
        StepPlainText(run(i - 1), step);
      }
    }
  }

  lemma NextExtends(s: System, t: System)
    requires Ordered(s) && Next(s, t)
    ensures Extends(s, t)
  {
    if t != s {
      var step :| Enabled(s, step, false) && t == Apply(s, step);
      StepExtends(s, step);
    }
  }

  lemma ExtendsTransitive(s: System, t: System, u: System)
    requires Extends(s, t) && Extends(t, u)
    ensures Extends(s, u)
  {
  }

  lemma {:induction false} AlwaysExtends(run: nat -> System, i: nat, j: nat)
    requires Behaviour(run) && i <= j
    ensures Extends(run(i), run(j))
    decreases j
  {
    if i == j {
    } else {
      AlwaysExtends(run, i, j - 1);
      AlwaysInvariant(run, j - 1);
      assert Next(run(j - 1), run(j - 1 + 1));
      NextExtends(run(j - 1), run(j));
      ExtendsTransitive(run(i), run(j - 1), run(j));
    }
  }

  // ------------------------------------------------------------------ the walk inside a behaviour

  const STATE: bytes := [0x53]

  /** /proc at one moment: a stat line for every living process. */
  function ProcFs(s: System): map<nat, bytes> {
    map p | p in s.parent && p in s.comm :: PrintStat(Dec(p), s.comm[p], [STATE, Dec(s.parent[p])] + s.tail)
  }

  /** Iteration i consults the map at moment at(2i) and, if that fails, /proc at moment at(2i + 1). */
  function Views(run: nat -> System, at: nat -> nat): nat -> View {
    (i: nat) => View(run(at(2 * i)).execMap, ProcFs(run(at(2 * i + 1))))
  }

  function Looks(run: nat -> System, at: nat -> nat): Lookups {
    Answers(Views(run, at))
  }

  ghost predicate InOrder(at: nat -> nat) {
    forall i: nat :: at(i) <= at(i + 1)
  }

  lemma ProcLookup(s: System, pid: nat, buffer: ProcInfo)
    requires Invariant(s)
    ensures FromStat(buffer, pid, if pid in ProcFs(s) then Some(ProcFs(s)[pid]) else None) ==
            if pid in s.parent
            then Found(buffer.(parent := s.parent[pid], comm := Take([OPEN] + s.comm[pid] + [CLOSE], COMM_ROOM)))
            else Missing
  {
    if pid in s.parent {
      LookupPrinted(buffer, pid, s.comm[pid], STATE, s.parent[pid], s.tail);
    }
  }

  lemma LookupBetween(s: System, t: System, c: Cursor)
    requires Invariant(s) && Invariant(t) && Extends(s, t)
    ensures var answer := LookupIn(View(s.execMap, ProcFs(t)), c);
            && !answer.Threw?
            && (answer.Found? ==> ParentEarlier(t, c.pid, answer.info.parent) && c.pid in t.born)
  {
    if c.pid !in s.execMap {
      ProcLookup(t, c.pid, c.buffer);
    }
  }

  /** A lookup during a behaviour never throws, and the parent it finds was born before the process. */
  lemma LookupDescends(run: nat -> System, at: nat -> nat, i: nat, c: Cursor)
    requires Behaviour(run) && InOrder(at)
    ensures var answer := Looks(run, at)(i, c);
            && !answer.Threw?
            && (answer.Found? ==> ParentEarlier(run(at(2 * i + 1)), c.pid, answer.info.parent)
                                  && c.pid in run(at(2 * i + 1)).born)
  {
    var s, t := run(at(2 * i)), run(at(2 * i + 1));
    assert at(2 * i) <= at(2 * i + 1);
    AlwaysInvariant(run, at(2 * i));
    AlwaysInvariant(run, at(2 * i + 1));
    AlwaysExtends(run, at(2 * i), at(2 * i + 1));
    LookupBetween(s, t, c);
  }

  lemma StepDescends(run: nat -> System, at: nat -> nat, i: nat, c: Cursor, end: nat)
    requires Behaviour(run) && InOrder(at) && at(2 * i + 1) <= end
    requires !Stops(Looks(run, at), i, c)
    ensures c.pid in run(end).born
    ensures ParentEarlier(run(end), c.pid, Advance(Looks(run, at), i, c).pid)
  {
    LookupDescends(run, at, i, c);
    AlwaysExtends(run, at(2 * i + 1), end);
  }

  function Age(s: System, pid: nat): nat {
    if pid in s.born then s.born[pid] + 1 else 0
  }

  function Rank(run: nat -> System, at: nat -> nat): (nat, nat) -> nat {
    (i: nat, pid: nat) => Age(run(at(2 * i + 1)), pid)
  }

  lemma RankFalls(run: nat -> System, at: nat -> nat, i: nat, pid: nat, parent: nat)
    requires Behaviour(run) && InOrder(at)
    requires pid in run(at(2 * i + 1)).born && ParentEarlier(run(at(2 * i + 1)), pid, parent)
    ensures Rank(run, at)(i, pid) > 0
    ensures parent == 0 || Rank(run, at)(i + 1, parent) < Rank(run, at)(i, pid)
  {
    var now := 2 * i + 1;
    assert at(now) <= at(now + 1) <= at(now + 1 + 1);
    AlwaysExtends(run, at(now), at(now + 2));
  }

  lemma RankDescends(run: nat -> System, at: nat -> nat, i: nat, c: Cursor, look: Lookups, rank: (nat, nat) -> nat)
    requires Behaviour(run) && InOrder(at) && look == Looks(run, at) && rank == Rank(run, at)
    requires !Stops(look, i, c)
    ensures rank(i, c.pid) > 0
    ensures Advance(look, i, c).pid == 0 || rank(i + 1, Advance(look, i, c).pid) < rank(i, c.pid)
  {
    StepDescends(run, at, i, c, at(2 * i + 1));
    RankFalls(run, at, i, c.pid, Advance(look, i, c).pid);
  }

  /** In every behaviour the walk halts from any process, birth order being its measure, even while the map changes under it. */
  lemma WalkHalts(run: nat -> System, at: nat -> nat, pid: nat, buffer: ProcInfo)
    requires Behaviour(run) && InOrder(at)
    ensures Halts(Looks(run, at), 0, Cursor(pid, buffer))
  {
    var look, rank := Looks(run, at), Rank(run, at);
    forall i: nat, c: Cursor | !Stops(look, i, c)
      ensures rank(i, c.pid) > 0
      ensures Advance(look, i, c).pid == 0 || rank(i + 1, Advance(look, i, c).pid) < rank(i, c.pid)
    {
      RankDescends(run, at, i, c, look, rank);
    }
    RankHalts(look, rank, 0, Cursor(pid, buffer), rank(0, pid));
  }

  predicate BirthsDescend(s: System, walk: seq<Cursor>) {
    && (forall k | 0 <= k < |walk| :: walk[k].pid in s.born)
    && (forall k | 0 < k < |walk| :: Earlier(s, walk[k].pid, walk[k - 1].pid))
  }

  lemma FirstEntry(look: Lookups, i: nat, c: Cursor, n: nat)
    requires HaltsWithin(look, i, c, n)
    ensures Walk(look, i, c, n) == [] <==> Stops(look, i, c)
    ensures Walk(look, i, c, n) != [] ==>
            && Walk(look, i, c, n)[0].pid == c.pid != 0
            && Walk(look, i, c, n)[1..] == Walk(look, i + 1, Advance(look, i, c), n - 1)
  {
  }

  /** Along the emitted trace, whatever ran meanwhile, every process is followed by one born before it; so no pid repeats. */
  lemma {:induction false} TraceDescends(run: nat -> System, at: nat -> nat, i: nat, c: Cursor, n: nat, end: nat)
    requires Behaviour(run) && InOrder(at)
    requires HaltsWithin(Looks(run, at), i, c, n)
    requires forall k: nat | k <= i + n :: at(2 * k + 1) <= end
    ensures BirthsDescend(run(end), Walk(Looks(run, at), i, c, n))
    decreases n
  {
    var look := Looks(run, at);
    var all := Walk(look, i, c, n);
    FirstEntry(look, i, c, n);
    if all == [] {
    } else {
      var d := Advance(look, i, c);
      StepDescends(run, at, i, c, end);
      FirstEntry(look, i + 1, d, n - 1);
      TraceDescends(run, at, i + 1, d, n - 1, end);
      DescendCons(run(end), all[0], all[1..]);
      assert all == [all[0]] + all[1..];
    }
  }

  lemma DescendCons(s: System, first: Cursor, rest: seq<Cursor>)
    requires first.pid in s.born && BirthsDescend(s, rest)
    requires rest != [] ==> Earlier(s, rest[0].pid, first.pid)
    ensures BirthsDescend(s, [first] + rest)
  {
  }

  lemma {:induction false} BirthsDistinct(s: System, walk: seq<Cursor>, j: nat, k: nat)
    requires BirthsDescend(s, walk) && j < k < |walk|
    ensures Earlier(s, walk[k].pid, walk[j].pid)
  {
    if j == k - 1 {
    } else {
      BirthsDistinct(s, walk, j, k - 1);
    }
  }

  lemma {:induction false} NeverThrows(run: nat -> System, at: nat -> nat, i: nat, c: Cursor, n: nat)
    requires Behaviour(run) && InOrder(at)
    requires HaltsWithin(Looks(run, at), i, c, n)
    ensures !Throws(Looks(run, at), i, c, n)
    decreases n
  {
    var look := Looks(run, at);
    if Stops(look, i, c) {
      LookupDescends(run, at, i, c);
    } else {
      NeverThrows(run, at, i + 1, Advance(look, i, c), n - 1);
    }
  }

  lemma {:induction false} DecLength(n: nat)
    ensures |Dec(n)| <= n + 1
  {
    if n < 10 {
    } else {
      DecLength(n / 10);
    }
  }

  /** A stat line fits a string. */
  lemma StatFitsString(s: System, pid: nat)
    requires Invariant(s) && pid in ProcFs(s)
    ensures |ProcFs(s)[pid]| <= MAX_STRING
  {
    var parent := s.parent[pid];
    assert pid in s.born && pid in s.comm;
    DecLength(pid);
    DecLength(parent);
    assert Join([STATE, Dec(parent)] + s.tail, SPACE) == STATE + [SPACE] + (Dec(parent) + [SPACE] + Join(s.tail, SPACE)) by {
      assert ([STATE, Dec(parent)] + s.tail)[1..] == [Dec(parent)] + s.tail;
      assert ([Dec(parent)] + s.tail)[1..] == s.tail;
    }
  }

  lemma ReadableView(run: nat -> System, at: nat -> nat, i: nat, view: View)
    requires Behaviour(run) && view == Views(run, at)(i)
    ensures forall p | p in view.stat :: |view.stat[p]| <= MAX_STRING
  {
    var s := run(at(2 * i + 1));
    AlwaysInvariant(run, at(2 * i + 1));
    assert view.stat == ProcFs(s);
    forall p | p in view.stat ensures |view.stat[p]| <= MAX_STRING {
      StatFitsString(s, p);
    }
  }

  lemma ReadableInBehaviour(run: nat -> System, at: nat -> nat)
    requires Behaviour(run)
    ensures ReadableStats(Views(run, at))
  {
    var views := Views(run, at);
    forall i: nat, p: nat | p in views(i).stat ensures |views(i).stat[p]| <= MAX_STRING {
      ReadableView(run, at, i, views(i));
    }
  }

  lemma {:induction false} LaterMoments(at: nat -> nat, i: nat, j: nat)
    requires InOrder(at) && i <= j
    ensures at(i) <= at(j)
    decreases j
  {
    if i == j {
    } else {
      LaterMoments(at, i, j - 1);
      assert at(j - 1) <= at(j - 1 + 1);
    }
  }

  /** Every process in the trace was born, by moment `end`, after the next one in it; so no pid repeats. */
  predicate StrictlyByBirth(s: System, trace: seq<Entry>) {
    forall j, k | 0 <= j < k < |trace| :: Earlier(s, trace[k].pid, trace[j].pid)
  }

  lemma TraceByBirth(run: nat -> System, at: nat -> nat, c: Cursor, n: nat)
    requires Behaviour(run) && InOrder(at)
    requires HaltsWithin(Looks(run, at), 0, c, n)
    ensures StrictlyByBirth(run(at(2 * n + 1)), Emitted(Walk(Looks(run, at), 0, c, n)))
  {
    var walk, end := Walk(Looks(run, at), 0, c, n), at(2 * n + 1);
    forall k: nat | k <= n ensures at(2 * k + 1) <= end {
      LaterMoments(at, 2 * k + 1, 2 * n + 1);
    }
    TraceDescends(run, at, 0, c, n, end);
    forall j, k | 0 <= j < k < |walk| ensures Earlier(run(end), walk[k].pid, walk[j].pid) {
      BirthsDistinct(run(end), walk, j, k);
    }
  }

  /**
   * generate_proc_trace inside any behaviour, its lookups spread over whatever moments: the loop ends, nothing is
   * thrown, and the published trace is strictly ordered by birth.
   */
  method TraceProcess(run: nat -> System, at: nat -> nat, pid: nat)
    returns (trace: seq<Entry>, ghost n: nat, ghost end: nat)
    requires Behaviour(run) && InOrder(at)
    ensures HaltsWithin(Looks(run, at), 0, Cursor(pid, ZEROED), n)
    ensures trace == if pid > 1 then Emitted(Walk(Looks(run, at), 0, Cursor(pid, ZEROED), n)) else []
    ensures pid > 1 ==> Told(Views(run, at), pid, trace)
    ensures StrictlyByBirth(run(end), trace)
    ensures forall j, k | 0 <= j < k < |trace| :: trace[j].pid != trace[k].pid
    ensures trace != [] ==> trace[0].pid == pid
  {
    var c := Cursor(pid, ZEROED);
    WalkHalts(run, at, pid, ZEROED);
    n :| HaltsWithin(Looks(run, at), 0, c, n);
    NeverThrows(run, at, 0, c, n);
    ReadableInBehaviour(run, at);
    TraceByBirth(run, at, c, n);
    FirstEntry(Looks(run, at), 0, c, n);
    var published := GenerateProcTrace(Views(run, at), pid, n);
    trace, end := published.value, at(2 * n + 1);
  }

  // ------------------------------------------------------------------ the assumption on process ids

  const BLANK_ARGS: seq<bytes> := [[], [], [], []]

  /** 1 runs; it forks 2, which forks 3; 3 is recorded; 2 exits; 3 forks a new 2, which is recorded. */
  const S0 := System(1, map[1 := 0], map[1 := 0], map[1 := []], map[], [[0x30]])
  const S1 := System(2, map[1 := 0, 2 := 1], map[1 := 0, 2 := 1], map[1 := [], 2 := []], map[], [[0x30]])
  const S2 := System(3, map[1 := 0, 2 := 1, 3 := 2], map[1 := 0, 2 := 1, 3 := 2], map[1 := [], 2 := [], 3 := []], map[], [[0x30]])
  const S3 := S2.(execMap := map[3 := ProcInfo(2, [], BLANK_ARGS)])
  const S4 := S3.(parent := map[1 := 0, 3 := 1], comm := map[1 := [], 3 := []])
  const S5 := S4.(clock := 4, born := map[1 := 0, 2 := 3, 3 := 2], parent := map[1 := 0, 2 := 3, 3 := 1],
                  comm := map[1 := [], 2 := [], 3 := []])
  const S6 := S5.(execMap := map[2 := ProcInfo(3, [], BLANK_ARGS), 3 := ProcInfo(2, [], BLANK_ARGS)])

  const REUSING_STEPS := [Fork(1, 2), Fork(2, 3), EnterExecve(3), Exit(2, 1), Fork(3, 2), EnterExecve(2)]

  const REUSING_STATES := [S0, S1, S2, S3, S4, S5, S6]

  predicate Transition(s: System, step: Step, t: System) {
    Enabled(s, step, true) && Apply(s, step) == t
  }

  predicate ReusingRun(states: seq<System>, steps: seq<Step>) {
    && |states| == |steps| + 1
    && Initial(states[0])
    && forall i | 0 <= i < |steps| :: Transition(states[i], steps[i], states[i + 1])
  }

  lemma FirstForks()
    ensures Transition(S0, Fork(1, 2), S1) && Transition(S1, Fork(2, 3), S2)
  {
  }

  lemma FirstRecord()
    ensures Transition(S2, EnterExecve(3), S3)
  {
  }

  lemma FirstExit()
    ensures Transition(S3, Exit(2, 1), S4)
  {
    assert Adopted(S3.parent, 2, 1) == S4.parent && S3.comm - {2} == S4.comm;
  }

  lemma SecondFork()
    ensures Transition(S4, Fork(3, 2), S5)
  {
    assert S4.born[2 := 3] == S5.born;
  }

  lemma SecondRecord()
    ensures Transition(S5, EnterExecve(2), S6)
  {
  }

  lemma ReusingStart()
    ensures Initial(S0)
  {
  }

  lemma ReusingTransition(i: nat)
    requires i < 6
    ensures Transition(REUSING_STATES[i], REUSING_STEPS[i], REUSING_STATES[i + 1])
  {
    if i < 2 {
      FirstForks();
    } else if i == 2 {
      FirstRecord();
    } else if i == 3 {
      FirstExit();
    } else if i == 4 {
      SecondFork();
    } else {
      SecondRecord();
    }
  }

  lemma ReusingRuns()
    ensures ReusingRun(REUSING_STATES, REUSING_STEPS)
  {
    ReusingStart();
    forall i | 0 <= i < 6 ensures Transition(REUSING_STATES[i], REUSING_STEPS[i], REUSING_STATES[i + 1]) {
      ReusingTransition(i);
    }
  }

  lemma LoopsForEver(v: View)
    requires ParentIn(v, 2) == Some(3) && ParentIn(v, 3) == Some(2)
    ensures !Halts(Fixed(v), 0, Cursor(2, ZEROED))
  {
    assert Chain(v, 3, 1) == Some(2);
    assert Chain(v, 2, 2) == Chain(v, 2, 0);
    HaltsExactly(v, 2, ZEROED);
  }

  /** Were process ids given out again, the same steps could close a cycle, and the walk would never end. */
  lemma ReuseCanLoop()
    ensures exists states: seq<System>, steps: seq<Step> ::
              && ReusingRun(states, steps)
              && !Halts(Fixed(View(states[|steps|].execMap, map[])), 0, Cursor(2, ZEROED))
  {
    ReusingRuns();
    LoopsForEver(View(S6.execMap, map[]));
    assert REUSING_STATES[|REUSING_STEPS|] == S6;
  }
}

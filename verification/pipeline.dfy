/** Whole runs of the pipeline: events, configuration updates and polls in any order. */
module Pipeline {
  import opened Capture
  import opened Filter
  import opened Post
  import opened Paths
  import Text
  import Config
  import SkipList

  /** An event with the clock reading and the outcome of publishing it, a request body with the fate of the file, or a poll. */
  datatype Step =
    | Arrive(e: Event, now: int, published: Text.Option<int>)
    | Update(body: Text.Option<Config.Request>, openOk: bool, renameOk: bool)
    | Fetch(param: CountParam)

  /** A record that has left the queue: delivered to a poll, or evicted by the push of a later event. */
  datatype Departure = Delivered(r: Record) | Evicted(r: Record, pushed: nat)

  /**
   * With caching on: the settings, the queue and the counter, beside the history of the accepted events whose send
   * returned, the number of those whose send threw, and the departures.
   */
  datatype World = World(st: Settings, queue: seq<Record>, counter: nat, accepted: seq<Record>, thrown: nat,
                         departed: seq<Departure>)

  function Start(st: Settings): World {
    World(st, [], 0, [], 0, [])
  }

  function EditedBy(list: seq<Text.bytes>, body: Text.Option<Config.Request>): seq<Text.bytes> {
    if body.None? then list else Config.Edited(list, Config.EditOf(body.value))
  }

  ghost function Apply(w: World, limit: int, step: Step): World
    requires limit >= 1
  {
    match step
    case Arrive(e, _, published) =>
      if !Reports(w.st, e) then w
      else if published.None? then w.(counter := w.counter + 1, thrown := w.thrown + 1)
      else
        w.(queue := Pushed(w.queue, limit, RecordOf(e)), counter := w.counter + 1, accepted := w.accepted + [RecordOf(e)],
           departed := if |w.queue| >= limit then w.departed + [Evicted(w.queue[0], |w.accepted|)] else w.departed)
    case Update(body, _, _) => w.(st := w.st.(confList := EditedBy(w.st.confList, body)))
    case Fetch(param) =>
      w.(queue := w.queue[|Handed(w, limit, step)|..], departed := w.departed + AllDelivered(Handed(w, limit, step)))
  }

  /** What a step hands to a client. */
  function Handed(w: World, limit: int, step: Step): (rs: seq<Record>)
    ensures rs <= w.queue
  {
    if step.Fetch? then w.queue[..Taken(w.queue, RequestedCount(step.param, limit))] else []
  }

  function AllDelivered(rs: seq<Record>): seq<Departure> {
    seq(|rs|, i requires 0 <= i < |rs| => Delivered(rs[i]))
  }

  ghost function After(w: World, limit: int, steps: seq<Step>, n: nat): World
    requires limit >= 1 && n <= |steps|
  {
    if n == 0 then w else Apply(After(w, limit, steps, n - 1), limit, steps[n - 1])
  }

  // ------------------------------------------------------------------ the object

  /** The object's settings, queue and counter are those of the world. */
  ghost predicate Represents(p: PostData, w: World)
    reads p, p.exporter
  {
    && p.maxEventQueueSize >= 1 && p.cacheData && p.exporter.counting
    && p.CurrentSettings() == w.st && p.eventQueue == w.queue && p.exporter.counter == w.counter
  }

  /** One step carried out on the object. */
  method Perform(p: PostData, step: Step, ghost w: World) returns (handed: seq<Record>)
    requires Represents(p, w)
    modifies p, p.exporter
    ensures p.maxEventQueueSize == old(p.maxEventQueueSize)
    ensures Represents(p, Apply(w, p.maxEventQueueSize, step))
    ensures handed == Handed(w, p.maxEventQueueSize, step)
  {
    handed := [];
    match step {
      case Arrive(e, now, published) =>
        var _ := p.ProcessEvent(e, now, published);
      case Update(body, openOk, renameOk) =>
        var _ := p.HandleUpdateConfigRequest(body, openOk, renameOk);
      case Fetch(param) =>
        handed := p.Poll(param);
    }
  }

  /** The delivered ones among the first n departures. */
  function DeliveredTo(ds: seq<Departure>, n: nat): seq<Record>
    requires n <= |ds|
  {
    if n == 0 then [] else DeliveredTo(ds, n - 1) + (if ds[n - 1].Delivered? then [ds[n - 1].r] else [])
  }

  function DeliveredOf(w: World): seq<Record> {
    DeliveredTo(w.departed, |w.departed|)
  }

  lemma {:induction false} DeliveredPrefix(ds: seq<Departure>, more: seq<Departure>, n: nat)
    requires n <= |ds|
    ensures DeliveredTo(ds + more, n) == DeliveredTo(ds, n)
  {
    if n == 0 {
    } else {
      DeliveredPrefix(ds, more, n - 1);
    }
  }

  lemma {:induction false} DeliveredMore(ds: seq<Departure>, rs: seq<Record>, n: nat)
    requires n <= |rs|
    ensures DeliveredTo(ds + AllDelivered(rs), |ds| + n) == DeliveredTo(ds, |ds|) + rs[..n]
  {
    if n == 0 {
      DeliveredPrefix(ds, AllDelivered(rs), |ds|);
    } else {
      DeliveredMore(ds, rs, n - 1);
      assert (ds + AllDelivered(rs))[|ds| + n - 1] == Delivered(rs[n - 1]);
    }
  }

  lemma StepDelivers(w: World, limit: int, step: Step)
    requires limit >= 1
    ensures DeliveredOf(Apply(w, limit, step)) == DeliveredOf(w) + Handed(w, limit, step)
  {
    match step
    case Arrive(e, _, _) =>
      if |w.queue| >= limit {
        DeliveredPrefix(w.departed, [Evicted(w.queue[0], |w.accepted|)], |w.departed|);
      }
    case Update(_, _, _) =>
    case Fetch(_) =>
      var rs := Handed(w, limit, step);
      DeliveredMore(w.departed, rs, |rs|);
      assert rs[..|rs|] == rs;
  }

  /** A whole run carried out on a fresh object: what the results below say about runs, they say about the object. */
  method Serve(p: PostData, steps: seq<Step>) returns (handed: seq<Record>)
    requires Represents(p, Start(p.CurrentSettings()))
    modifies p, p.exporter
    ensures p.maxEventQueueSize == old(p.maxEventQueueSize)
    ensures var w := After(Start(old(p.CurrentSettings())), p.maxEventQueueSize, steps, |steps|);
            Represents(p, w) && handed == DeliveredOf(w)
  {
    ghost var start, limit := Start(p.CurrentSettings()), p.maxEventQueueSize;
    handed := [];
    for i := 0 to |steps|
      invariant p.maxEventQueueSize == limit
      invariant Represents(p, After(start, limit, steps, i))
      invariant handed == DeliveredOf(After(start, limit, steps, i))
    {
      StepDelivers(After(start, limit, steps, i), limit, steps[i]);
      var more := Perform(p, steps[i], After(start, limit, steps, i));
      handed := handed + more;
    }
  }

  // ------------------------------------------------------------------ conservation

  /** The departures are the first accepted events in order; the queue is the rest; evictions are due to a fixed successor. */
  ghost predicate Conserved(w: World, limit: int) {
    && |w.departed| <= |w.accepted|
    && (forall k | 0 <= k < |w.departed| :: w.departed[k].r == w.accepted[k])
    && w.queue == w.accepted[|w.departed|..]
    && |w.queue| <= limit
    && w.counter == |w.accepted| + w.thrown
    && (forall k | 0 <= k < |w.departed| && w.departed[k].Evicted? :: w.departed[k].pushed == k + limit)
  }

  lemma StepConserves(w: World, limit: int, step: Step)
    requires limit >= 1 && Conserved(w, limit)
    ensures Conserved(Apply(w, limit, step), limit)
  {
    var v := Apply(w, limit, step);
    match step
    case Arrive(e, _, published) =>
      if Reports(w.st, e) && published.Some? {
        assert |w.queue| >= limit ==> w.queue[0] == w.accepted[|w.departed|];
      }
    case Update(_, _, _) =>
    case Fetch(_) =>
      forall k | 0 <= k < |v.departed| ensures v.departed[k].r == v.accepted[k] {
        if k >= |w.departed| {
          assert v.departed[k] == Delivered(w.queue[k - |w.departed|]);
        }
      }
  }

  /** Over every interleaving, accepted events are never lost, duplicated or reordered on their way through the queue. */
  lemma {:induction false} AlwaysConserved(st: Settings, limit: int, steps: seq<Step>, n: nat)
    requires limit >= 1 && n <= |steps|
    ensures Conserved(After(Start(st), limit, steps, n), limit)
  {
    if n == 0 {
    } else {
      AlwaysConserved(st, limit, steps, n - 1);
      StepConserves(After(Start(st), limit, steps, n - 1), limit, steps[n - 1]);
    }
  }

  function EvictedCount(ds: seq<Departure>, n: nat): nat
    requires n <= |ds|
  {
    if n == 0 then 0 else EvictedCount(ds, n - 1) + (if ds[n - 1].Evicted? then 1 else 0)
  }

  lemma {:induction false} DepartureCounts(ds: seq<Departure>, n: nat)
    requires n <= |ds|
    ensures |DeliveredTo(ds, n)| + EvictedCount(ds, n) == n
  {
    if n == 0 {
    } else {
      DepartureCounts(ds, n - 1);
    }
  }

  /** file_access_counter always equals the records delivered, evicted and still queued, and the events whose send threw. */
  lemma CounterAccounts(st: Settings, limit: int, steps: seq<Step>, n: nat)
    requires limit >= 1 && n <= |steps|
    ensures var w := After(Start(st), limit, steps, n);
            w.counter == |DeliveredOf(w)| + EvictedCount(w.departed, |w.departed|) + |w.queue| + w.thrown
  {
    var w := After(Start(st), limit, steps, n);
    AlwaysConserved(st, limit, steps, n);
    DepartureCounts(w.departed, |w.departed|);
  }

  /** Of a run's first n steps, those that are not arrivals of unreported events. */
  ghost function Heeded(w: World, limit: int, steps: seq<Step>, n: nat): seq<Step>
    requires limit >= 1 && n <= |steps|
  {
    if n == 0 then []
    else
      var front, step := Heeded(w, limit, steps, n - 1), steps[n - 1];
      if step.Arrive? && !Reports(After(w, limit, steps, n - 1).st, step.e) then front else front + [step]
  }

  lemma {:induction false} AfterPrefix(w: World, limit: int, steps: seq<Step>, more: seq<Step>, n: nat)
    requires limit >= 1 && n <= |steps|
    ensures After(w, limit, steps + more, n) == After(w, limit, steps, n)
  {
    if n == 0 {
    } else {
      AfterPrefix(w, limit, steps, more, n - 1);
    }
  }

  lemma AfterOneMore(w: World, limit: int, front: seq<Step>, step: Step)
    requires limit >= 1
    ensures After(w, limit, front + [step], |front| + 1) == Apply(After(w, limit, front, |front|), limit, step)
  {
    AfterPrefix(w, limit, front, [step], |front|);
  }

  lemma UnreportedStays(w: World, limit: int, step: Step)
    requires limit >= 1 && step.Arrive? && !Reports(w.st, step.e)
    ensures Apply(w, limit, step) == w
  {
  }

  /** Unreported events leave no trace: a run ends as if they had never arrived. */
  lemma {:induction false} RejectedLeavesNoTrace(w: World, limit: int, steps: seq<Step>, n: nat)
    requires limit >= 1 && n <= |steps|
    ensures var heeded := Heeded(w, limit, steps, n);
            After(w, limit, heeded, |heeded|) == After(w, limit, steps, n)
  {
    if n == 0 {
    } else {
      var before, step := After(w, limit, steps, n - 1), steps[n - 1];
      RejectedLeavesNoTrace(w, limit, steps, n - 1);
      if step.Arrive? && !Reports(before.st, step.e) {
        UnreportedStays(before, limit, step);
      } else {
        AfterOneMore(w, limit, Heeded(w, limit, steps, n - 1), step);
      }
    }
  }

  // ------------------------------------------------------------------ which events are queued

  /** Whether a step puts a record into the queue. */
  ghost predicate Queues(w: World, step: Step) {
    step.Arrive? && Reports(w.st, step.e) && step.published.Some?
  }

  lemma QueuedByStep(w: World, limit: int, step: Step)
    requires limit >= 1
    ensures Apply(w, limit, step).accepted == if Queues(w, step) then w.accepted + [RecordOf(step.e)] else w.accepted
  {
  }

  /** The request a step posts; other steps post nothing that is acted on. */
  function PostedBy(step: Step): Config.Posted {
    if step.Update? && step.body.Some? then Config.Posted(step.body.value, step.openOk, step.renameOk)
    else Config.Posted(Config.NotAnObject, true, true)
  }

  function PostedIn(steps: seq<Step>): seq<Config.Posted> {
    seq(|steps|, i requires 0 <= i < |steps| => PostedBy(steps[i]))
  }

  function Calls(steps: seq<Step>): seq<Config.Call> {
    Config.CallsFor(PostedIn(steps))
  }

  /** Along a run only the list of the settings changes, as the requests among the steps say. */
  lemma {:induction false} SettingsFollow(st: Settings, limit: int, steps: seq<Step>, s: Config.State, n: nat)
    requires limit >= 1 && n <= |steps| && s.confList == st.confList
    ensures After(Start(st), limit, steps, n).st == st.(confList := Config.After(s, Calls(steps), n).confList)
  {
    if n == 0 {
    } else {
      SettingsFollow(st, limit, steps, s, n - 1);
    }
  }

  /** Step i of the run, if an event arrives, is a write or copy to the file ds[i] by a process that is not skipped. */
  ghost predicate Writes(st: Settings, step: Step, d: Dentry) {
    step.Arrive? ==>
      && IsFile(d)
      && step.e.pid != 0 && !SkipList.Skipped(st.skip, step.e.cmd)
      && exists task, ino, flag ::
           (flag == Write || flag == CopyFileRange) && step.e == FileEvent(task, ino, d, flag)
  }

  ghost predicate AllWrite(st: Settings, steps: seq<Step>, ds: seq<Dentry>)
    requires |ds| == |steps|
  {
    forall i {:trigger Writes(st, steps[i], ds[i])} | 0 <= i < |steps| :: Writes(st, steps[i], ds[i])
  }

  /** Neither the initial list nor any addition misleads the decisions about the written files. */
  ghost predicate AllSuit(st: Settings, steps: seq<Step>, ds: seq<Dentry>)
    requires |ds| == |steps|
  {
    forall i | 0 <= i < |steps| && steps[i].Arrive? ::
      && IsFile(ds[i]) && ListSuits(st.confList, ds[i])
      && forall j, path | 0 <= j < i && Config.AsksAddition(PostedBy(steps[j]).r, path) :: Suits(path, ds[i])
  }

  /** The file is visible, and the last request about its true path added it, or there was none and it was listed at first. */
  predicate ListedAt(st: Settings, steps: seq<Step>, d: Dentry, n: nat)
    requires n <= |steps| && IsFile(d)
  {
    && d.name[0] != Text.DOT
    && match Config.LastAsked(PostedIn(steps), TruePath(d), n)
       case None => TruePath(d) in st.confList
       case Some(added) => added
  }

  /** The records of the first n steps that write to a listed file and whose send returns, in order. */
  ghost function ListedWrites(st: Settings, steps: seq<Step>, ds: seq<Dentry>, n: nat): seq<Record>
    requires n <= |steps| == |ds|
  {
    if n == 0 then []
    else
      var front := ListedWrites(st, steps, ds, n - 1);
      if IsListedWrite(st, steps, ds, n - 1) then front + [RecordOf(steps[n - 1].e)] else front
  }

  lemma ReportedExactlyListed(st: Settings, limit: int, steps: seq<Step>, ds: seq<Dentry>, n: nat)
    requires limit >= 1 && n < |steps| == |ds| && !st.verbose && steps[n].Arrive?
    requires Writes(st, steps[n], ds[n]) && AllSuit(st, steps, ds)
    ensures Reports(After(Start(st), limit, steps, n).st, steps[n].e) <==> ListedAt(st, steps, ds[n], n)
  {
    var s, now := Config.State(st.confList, map[], map[]), After(Start(st), limit, steps, n).st;
    SettingsFollow(st, limit, steps, s, n);
    var task, ino, flag :|
      (flag == Write || flag == CopyFileRange) && steps[n].e == FileEvent(task, ino, ds[n], flag);
    forall j | 0 <= j < n && Calls(steps)[j].edit.Add? ensures Suits(Calls(steps)[j].edit.path, ds[n]) {
      Config.EditExactly(PostedBy(steps[j]).r, Calls(steps)[j].edit.path);
    }
    Config.LastAskedIsLastEdit(PostedIn(steps), TruePath(ds[n]), n);
    Config.FilterAfterRun(s, Calls(steps), n, now, task, ino, ds[n], flag);
  }

  /** Whether step n counts among the listed writes. */
  predicate IsListedWrite(st: Settings, steps: seq<Step>, ds: seq<Dentry>, n: nat)
    requires n < |steps| == |ds|
  {
    steps[n].Arrive? && IsFile(ds[n]) && ListedAt(st, steps, ds[n], n) && steps[n].published.Some?
  }

  lemma QueuesExactlyListed(st: Settings, limit: int, steps: seq<Step>, ds: seq<Dentry>, n: nat)
    requires limit >= 1 && n < |steps| == |ds| && !st.verbose
    requires Writes(st, steps[n], ds[n]) && AllSuit(st, steps, ds)
    ensures Queues(After(Start(st), limit, steps, n), steps[n]) <==> IsListedWrite(st, steps, ds, n)
  {
    if steps[n].Arrive? {
      ReportedExactlyListed(st, limit, steps, ds, n);
    }
  }

  /**
   * From dentry to queue over a whole run of writes, updates and polls: the events queued are exactly the writes to
   * files that were listed, by their true path, when they arrived.
   */
  lemma {:induction false} QueuedExactlyListed(st: Settings, limit: int, steps: seq<Step>, ds: seq<Dentry>, n: nat)
    requires limit >= 1 && n <= |steps| == |ds| && !st.verbose
    requires AllWrite(st, steps, ds)
    requires AllSuit(st, steps, ds)
    ensures After(Start(st), limit, steps, n).accepted == ListedWrites(st, steps, ds, n)
  {
    if n == 0 {
    } else {
      QueuedExactlyListed(st, limit, steps, ds, n - 1);
      QueuedByStep(After(Start(st), limit, steps, n - 1), limit, steps[n - 1]);
      assert Writes(st, steps[n - 1], ds[n - 1]);
      QueuesExactlyListed(st, limit, steps, ds, n - 1);
    }
  }

  // ------------------------------------------------------------------ the polling contract

  /** Events queued since the last poll, or since the start. */
  ghost function SincePoll(w: World, limit: int, steps: seq<Step>, n: nat): nat
    requires limit >= 1 && n <= |steps|
  {
    if n == 0 || steps[n - 1].Fetch? then 0
    else SincePoll(w, limit, steps, n - 1) + (if Queues(After(w, limit, steps, n - 1), steps[n - 1]) then 1 else 0)
  }

  /** Never more than c events queued between polls, and every poll asks for at least c. */
  ghost predicate PollingContract(w: World, limit: int, steps: seq<Step>, c: nat)
    requires limit >= 1
  {
    && (forall n | 0 <= n <= |steps| :: SincePoll(w, limit, steps, n) <= c)
    && (forall n | 0 <= n < |steps| && steps[n].Fetch? :: AsksFor(steps[n].param, c, limit))
  }

  ghost predicate NoneEvicted(w: World) {
    forall k | 0 <= k < |w.departed| :: w.departed[k].Delivered?
  }

  lemma NoLossStep(w: World, limit: int, step: Step, c: nat)
    requires limit >= 1 && c <= limit && NoneEvicted(w)
    requires Queues(w, step) ==> |w.queue| + 1 <= c
    requires step.Fetch? ==> AsksFor(step.param, c, limit) && c >= |w.queue|
    ensures var v := Apply(w, limit, step);
            && NoneEvicted(v)
            && |v.queue| == if step.Fetch? then 0 else |w.queue| + (if Queues(w, step) then 1 else 0)
  {
    if step.Fetch? {
      AsksForExactly(step.param, c, limit, w.queue);
    }
  }

  /** Under the contract nothing is evicted, and the queue holds exactly what was queued since the last poll. */
  lemma {:induction false} NoLoss(st: Settings, limit: int, steps: seq<Step>, c: nat, n: nat)
    requires limit >= 1 && c <= limit && n <= |steps|
    requires PollingContract(Start(st), limit, steps, c)
    ensures NoneEvicted(After(Start(st), limit, steps, n))
    ensures |After(Start(st), limit, steps, n).queue| == SincePoll(Start(st), limit, steps, n) <= c
  {
    assert SincePoll(Start(st), limit, steps, n) <= c;
    if n == 0 {
    } else {
      NoLoss(st, limit, steps, c, n - 1);
      NoLossStep(After(Start(st), limit, steps, n - 1), limit, steps[n - 1], c);
    }
  }

  lemma {:induction false} DeliveredAll(w: World, n: nat)
    requires n <= |w.departed| <= |w.accepted| && NoneEvicted(w)
    requires forall k | 0 <= k < |w.departed| :: w.departed[k].r == w.accepted[k]
    ensures DeliveredTo(w.departed, n) == w.accepted[..n]
  {
    if n == 0 {
    } else {
      DeliveredAll(w, n - 1);
      assert w.departed[n - 1].r == w.accepted[n - 1];
    }
  }

  /** A poll that ends a run satisfying the contract leaves every queued event delivered, once and in order. */
  lemma PollDeliversAll(st: Settings, limit: int, steps: seq<Step>, c: nat)
    requires limit >= 1 && c <= limit && PollingContract(Start(st), limit, steps, c)
    requires steps != [] && steps[|steps| - 1].Fetch?
    ensures var w := After(Start(st), limit, steps, |steps|); DeliveredOf(w) == w.accepted
  {
    AlwaysConserved(st, limit, steps, |steps|);
    NoLoss(st, limit, steps, c, |steps|);
    var w := After(Start(st), limit, steps, |steps|);
    assert |w.queue| == 0;
    DeliveredAll(w, |w.departed|);
    assert w.accepted[..|w.accepted|] == w.accepted;
  }

  /** Together: under the contract the clients have been handed exactly the writes to listed files, once and in order. */
  lemma DeliveredExactlyListed(st: Settings, limit: int, steps: seq<Step>, ds: seq<Dentry>, c: nat)
    requires limit >= 1 && c <= limit && |steps| == |ds| && !st.verbose
    requires PollingContract(Start(st), limit, steps, c) && steps != [] && steps[|steps| - 1].Fetch?
    requires AllWrite(st, steps, ds)
    requires AllSuit(st, steps, ds)
    ensures DeliveredOf(After(Start(st), limit, steps, |steps|)) == ListedWrites(st, steps, ds, |steps|)
  {
    PollDeliversAll(st, limit, steps, c);
    QueuedExactlyListed(st, limit, steps, ds, |steps|);
  }

  /** The record says who wrote, and the file's path can be rebuilt from it. */
  predicate TellsWrite(r: Record, e: Event, d: Dentry)
    requires d.Node?
  {
    Carries(r, e) && PathFrom(r) == RebuiltFor(d)
  }

  /** Every record handed out in such a run is that of one of its writes, field by field. */
  lemma {:induction false} ListedWritesTell(st: Settings, steps: seq<Step>, ds: seq<Dentry>, n: nat, k: nat) returns (i: nat)
    requires n <= |steps| == |ds| && k < |ListedWrites(st, steps, ds, n)|
    requires AllWrite(st, steps, ds)
    ensures i < n && steps[i].Arrive? && IsFile(ds[i]) && ListedAt(st, steps, ds[i], i)
    ensures TellsWrite(ListedWrites(st, steps, ds, n)[k], steps[i].e, ds[i])
  {
    var front := ListedWrites(st, steps, ds, n - 1);
    if k < |front| {
      i := ListedWritesTell(st, steps, ds, n - 1, k);
    } else {
      i := n - 1;
      assert Writes(st, steps[i], ds[i]);
      var task, ino, flag :| (flag == Write || flag == CopyFileRange) && steps[i].e == FileEvent(task, ino, ds[i], flag);
      RecordOfWrite(task, ino, ds[i], flag);
    }
  }
}

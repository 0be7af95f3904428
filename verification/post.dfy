/**
 * The event pipeline: src/post.cpp, process_event, send, cache_event, get_events_from_queue, the event endpoint,
 * and update_config, on one object.
 */
module Post {
  import opened Text
  import opened Capture
  import opened Paths
  import opened Filter
  import Config
  import Gauges

  /** The JSON object cache_event queues for an event. */
  datatype Record = Record(pid: nat, ppid: nat, cmd: bytes, flag: Syscall, filename: bytes,
                           dir1: bytes, dir2: bytes, dir3: bytes, dir4: bytes)

  function RecordOf(e: Event): Record {
    Record(e.pid, e.ppid, e.cmd, e.flag, e.filename, e.dir1, e.dir2, e.dir3, e.dir4)
  }

  /** A record carries what the event says, field by field. */
  predicate Carries(r: Record, e: Event) {
    && r.pid == e.pid && r.ppid == e.ppid && r.cmd == e.cmd && r.flag == e.flag && r.filename == e.filename
    && r.dir1 == e.dir1 && r.dir2 == e.dir2 && r.dir3 == e.dir3 && r.dir4 == e.dir4
  }

  /** A client can rebuild the path from the record. */
  function PathFrom(r: Record): bytes {
    Rebuilt([r.dir4, r.dir3, r.dir2, r.dir1, r.filename])
  }

  /** What a client learns from the record of a write or copy: who did it, and the path rebuilt for the file. */
  lemma RecordOfWrite(task: Task, ino: nat, d: Dentry, flag: Syscall)
    requires IsFile(d) && (flag == Write || flag == CopyFileRange)
    ensures var r := RecordOf(FileEvent(task, ino, d, flag));
            && Carries(r, FileEvent(task, ino, d, flag))
            && r.pid == task.tgid && r.cmd == task.comm && r.flag == flag
            && r.ppid == (match task.parent case Some(ppid) => ppid case None => 0)
            && PathFrom(r) == RebuiltFor(d)
  {
    FileEventTells(task, ino, d, flag);
    RebuiltPath(task, ino, d, flag);
  }

  const DEFAULT_QUEUE_SIZE := 1000
  const DEFAULT_COUNT := 10

  /** load_config's reading of "max_event_queue_size". */
  function QueueLimit(configured: int): (limit: int)
    ensures limit >= 1
    ensures configured >= 1 ==> limit == configured
    ensures configured < 1 ==> limit == 1000
  {
    if configured <= 0 then DEFAULT_QUEUE_SIZE else configured
  }

  /** A full queue gives up its oldest record. */
  function Pushed(queue: seq<Record>, limit: int, r: Record): seq<Record>
    requires limit >= 1
  {
    (if |queue| >= limit then queue[1..] else queue) + [r]
  }

  /** How many records a poll takes off the queue. */
  function Taken(queue: seq<Record>, count: int): (k: nat)
    ensures k <= |queue|
  {
    if count <= 0 then 0 else Min(count, |queue|)
  }

  /** The "count" parameter of a poll: missing or empty, not a number, or a number. */
  datatype CountParam = Absent | Unreadable | Number(n: int)

  function RequestedCount(p: CountParam, limit: int): int {
    match p
    case Absent => DEFAULT_COUNT
    case Unreadable => DEFAULT_COUNT
    case Number(n) => if n <= 0 || n > limit then DEFAULT_COUNT else n
  }

  /** What a client must ask for to be given `c` records where they are there: told from the parameter alone. */
  predicate AsksFor(p: CountParam, c: nat, limit: int) {
    if p.Number? && 0 < p.n <= limit then c <= p.n else c <= DEFAULT_COUNT
  }

  /** A parameter above the limit counts for no more than a missing one. */
  lemma AsksForExactly(p: CountParam, c: nat, limit: int, queue: seq<Record>)
    ensures AsksFor(p, c, limit) <==> RequestedCount(p, limit) >= c
    ensures AsksFor(p, c, limit) ==> Taken(queue, RequestedCount(p, limit)) >= Min(c, |queue|)
  {
  }

  /** Verbose mode prints accepted events and does nothing else with them. */
  ghost predicate Reports(st: Settings, e: Event) {
    Accepts(st, e) && !st.verbose
  }

  class PostData {
    var confList: seq<bytes>
    var skipProcesses: seq<bytes>
    var verbose: bool
    var monitorFilePath: bytes
    var cacheData: bool
    var maxEventQueueSize: int
    var eventQueue: seq<Record>
    const exporter: Gauges.Exporter
    var configObject: map<string, Config.Json>
    var disk: map<string, Config.Json>

    function CurrentSettings(): Settings
      reads this
    {
      Settings(confList, skipProcesses, verbose, monitorFilePath)
    }

    function ConfigState(): Config.State
      reads this
    {
      Config.State(confList, configObject, disk)
    }

    constructor (confList: seq<bytes>, skip: seq<bytes>, verbose: bool, monitor: bytes, cacheData: bool,
                 configuredSize: int, object_: map<string, Config.Json>, exporter: Gauges.Exporter)
      ensures CurrentSettings() == Settings(confList, skip, verbose, monitor)
      ensures ConfigState() == Config.State(confList, object_, object_)
      ensures eventQueue == [] && this.exporter == exporter
      ensures this.cacheData == cacheData && maxEventQueueSize == QueueLimit(configuredSize)
    {
      this.confList, skipProcesses, this.verbose, monitorFilePath := confList, skip, verbose, monitor;
      this.cacheData, maxEventQueueSize := cacheData, QueueLimit(configuredSize);
      eventQueue, this.exporter := [], exporter;
      configObject, disk := object_, object_;
    }

    /**
     * Setting the metrics is the only lasting effect of send. `now` is the clock reading of set_metrics; `published`
     * is the code of publishing, None for an exception while the record is built or dumped.
     */
    method Send(e: Event, now: int, published: Option<int>) returns (code: Option<int>)
      modifies exporter
      ensures code == published
      ensures exporter.counting == old(exporter.counting)
      ensures exporter.counter == old(exporter.counter) + (if exporter.counting then 1 else 0)
      ensures exporter.Snapshot() ==
              Gauges.Commit(old(exporter.Snapshot()), Gauges.Prepare(e, now), ToString(now))
    {
      var p := exporter.Begin(e, now);
      exporter.Finish(p);
      code := published;
    }

    method CacheEvent(e: Event)
      requires maxEventQueueSize >= 1
      modifies `eventQueue
      ensures eventQueue ==
              if cacheData then Pushed(old(eventQueue), maxEventQueueSize, RecordOf(e)) else old(eventQueue)
      ensures cacheData ==>
              && eventQueue != [] && Carries(eventQueue[|eventQueue| - 1], e)
              && eventQueue[..|eventQueue| - 1] ==
                 if |old(eventQueue)| < maxEventQueueSize then old(eventQueue) else old(eventQueue)[1..]
    {
      if !cacheData {
        return;
      }
      if |eventQueue| >= maxEventQueueSize {
        eventQueue := eventQueue[1..];
      }
      eventQueue := eventQueue + [RecordOf(e)];
    }

    /** One validation decides about every effect of an event; None is an exception that passes through. */
    method ProcessEvent(e: Event, now: int, published: Option<int>) returns (code: Option<int>)
      requires maxEventQueueSize >= 1
      modifies `eventQueue, exporter
      ensures exporter.counting == old(exporter.counting)
      ensures !Reports(CurrentSettings(), e) ==>
              && code == Some(0) && eventQueue == old(eventQueue)
              && exporter.counter == old(exporter.counter) && exporter.Snapshot() == old(exporter.Snapshot())
      ensures Reports(CurrentSettings(), e) ==>
              && code == published
              && exporter.counter == old(exporter.counter) + (if exporter.counting then 1 else 0)
              && exporter.Snapshot() == Gauges.Commit(old(exporter.Snapshot()), Gauges.Prepare(e, now), ToString(now))
              && eventQueue == (if published.Some? && cacheData
                                then Pushed(old(eventQueue), maxEventQueueSize, RecordOf(e)) else old(eventQueue))
      ensures Reports(CurrentSettings(), e) && published.Some? && cacheData ==>
              eventQueue != [] && Carries(eventQueue[|eventQueue| - 1], e)
    {
      var valid := IsValidEvent(CurrentSettings(), e);
      if !valid {
        return Some(0);
      }
      if verbose {
        return Some(0);
      }
      code := Send(e, now, published);
      if code == None {
        return;
      }
      CacheEvent(e);
    }

    method GetEventsFromQueue(count: int) returns (events: seq<Record>)
      modifies `eventQueue
      ensures var k := Taken(old(eventQueue), count);
              events == old(eventQueue)[..k] && eventQueue == old(eventQueue)[k..]
      ensures events + eventQueue == old(eventQueue)
      ensures |events| == if count <= 0 then 0 else if count < |old(eventQueue)| then count else |old(eventQueue)|
    {
      events := [];
      if eventQueue == [] {
        return;
      }
      var actual := Min(count, |eventQueue|);
      ghost var all := eventQueue;
      var i := 0;
      while i < actual
        invariant 0 <= i <= Taken(all, count)
        invariant events == all[..i] && eventQueue == all[i..]
      {
        events := events + [eventQueue[0]];
        eventQueue := eventQueue[1..];
        i := i + 1;
      }
    }

    /** GET /monitor_file_status. */
    method Poll(p: CountParam) returns (events: seq<Record>)
      modifies `eventQueue
      ensures var k := Taken(old(eventQueue), RequestedCount(p, maxEventQueueSize));
              events == old(eventQueue)[..k] && eventQueue == old(eventQueue)[k..]
      ensures events + eventQueue == old(eventQueue)
      ensures p.Number? && 0 < p.n <= maxEventQueueSize ==> |events| == Min(p.n, |old(eventQueue)|)
      ensures !(p.Number? && 0 < p.n <= maxEventQueueSize) ==> |events| == Min(10, |old(eventQueue)|)
    {
      var count := DEFAULT_COUNT;
      if p.Number? {
        count := p.n;
        if count <= 0 || count > maxEventQueueSize {
          count := DEFAULT_COUNT;
        }
      }
      events := GetEventsFromQueue(count);
    }

    /** update_config; `openOk` and `renameOk` say whether the temporary file opens and the rename succeeds. */
    method UpdateConfig(r: Config.Request, openOk: bool, renameOk: bool) returns (code: int)
      modifies `confList, `configObject, `disk
      ensures ConfigState() == Config.Updated(old(ConfigState()), Config.EditOf(r), openOk, renameOk)
      ensures code == if Config.Succeeds(Config.EditOf(r), openOk, renameOk) then 0 else -1
      ensures configObject == old(configObject)
              || configObject == old(configObject)["config_list" := Config.List(confList)]
      ensures forall path | Config.AsksAddition(r, path) :: confList == old(confList) + [path]
      ensures forall path | Config.AsksRemoval(r, path) :: confList == Config.Erased(old(confList), path)
      ensures (forall path :: !Config.AsksAddition(r, path) && !Config.AsksRemoval(r, path)) ==>
              code == -1 && ConfigState() == old(ConfigState())
    {
      Config.RejectedExactly(r);
      if !Config.HasFields(r) {
        return -1;
      }
      var conf, action := r.fields["conf"].text, r.fields["action"].text;
      if action == Ascii("add") {
        confList := confList + [conf];
      } else if action == Ascii("remove") {
        confList := Config.Erased(confList, conf);
      } else {
        return -1;
      }
      configObject := configObject[Config.LIST_KEY := Config.List(confList)];
      if !openOk {
        return -1;
      }
      if !renameOk {
        return -1;
      }
      disk := configObject;
      return 0;
    }

    /** POST /filetrace; None is a body that does not parse. */
    method HandleUpdateConfigRequest(body: Option<Config.Request>, openOk: bool, renameOk: bool) returns (status: int)
      modifies `confList, `configObject, `disk
      ensures body.None? ==> status == 400 && ConfigState() == old(ConfigState())
      ensures body.Some? ==>
              var edit := Config.EditOf(body.value);
              && ConfigState() == Config.Updated(old(ConfigState()), edit, openOk, renameOk)
              && status == (if edit.Rejected? then 400 else if openOk && renameOk then 200 else 500)
      ensures body.Some? ==>
              && (forall path | Config.AsksAddition(body.value, path) :: confList == old(confList) + [path] && status != 400)
              && (forall path | Config.AsksRemoval(body.value, path) ::
                    confList == Config.Erased(old(confList), path) && status != 400)
              && ((forall path :: !Config.AsksAddition(body.value, path) && !Config.AsksRemoval(body.value, path)) ==>
                    status == 400 && ConfigState() == old(ConfigState()))
    {
      if body.None? {
        return 400;
      }
      var r := body.value;
      Config.RejectedExactly(r);
      if !Config.HasFields(r) {
        return 400;
      }
      var action := r.fields["action"].text;
      if action != Ascii("add") && action != Ascii("remove") {
        return 400;
      }
      var code := UpdateConfig(r, openOk, renameOk);
      status := if code != 0 then 500 else 200;
    }
  }
}

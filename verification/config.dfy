/** Changing the monitored list at run time: src/post.cpp, update_config and handle_update_config_request. */
module Config {
  import opened Text
  import opened Capture
  import opened Paths
  import opened Filter
  import SkipList

  /** Values of the configuration object: text, a list of paths, or anything this program only carries along. */
  datatype Json = Str(text: bytes) | List(items: seq<bytes>) | Opaque(id: nat)

  datatype Request = NotAnObject | Object(fields: map<string, Json>)

  const LIST_KEY := "config_list"

  /** conf_list, the parsed configuration object, and the object the configuration file holds. */
  datatype State = State(confList: seq<bytes>, object_: map<string, Json>, disk: map<string, Json>)

  datatype Edit = Add(path: bytes) | Remove(path: bytes) | Rejected

  predicate HasFields(r: Request) {
    && r.Object?
    && "conf" in r.fields && r.fields["conf"].Str?
    && "action" in r.fields && r.fields["action"].Str?
  }

  /** What a request asks for; malformed requests and unknown actions are rejected. */
  function EditOf(r: Request): Edit {
    if !HasFields(r) then Rejected
    else
      var conf, action := r.fields["conf"].text, r.fields["action"].text;
      if action == Ascii("add") then Add(conf) else if action == Ascii("remove") then Remove(conf) else Rejected
  }

  /** The list without any copy of `path`, order kept. */
  function Erased(list: seq<bytes>, path: bytes): (r: seq<bytes>)
    ensures forall p :: p in r <==> p in list && p != path
  {
    if list == [] then []
    else
      var k := |list| - 1;
      assert list == list[..k] + [list[k]];
      Erased(list[..k], path) + (if list[k] == path then [] else [list[k]])
  }

  lemma ErasedLast(list: seq<bytes>, last: bytes, path: bytes)
    ensures Erased(list + [last], path) == Erased(list, path) + (if last == path then [] else [last])
  {
    assert (list + [last])[..|list|] == list;
  }

  lemma ErasedOne(p: bytes, path: bytes)
    ensures Erased([p], path) == if p == path then [] else [p]
  {
    ErasedLast([], p, path);
    assert [] + [p] == [p];
  }

  lemma ErasedStep(a: seq<bytes>, front: seq<bytes>, last: bytes, path: bytes)
    requires Erased(a + front, path) == Erased(a, path) + Erased(front, path)
    ensures Erased(a + (front + [last]), path) == Erased(a, path) + Erased(front + [last], path)
  {
    ErasedLast(a + front, last, path);
    ErasedLast(front, last, path);
    Regrouped(a, front, [last], [], []);
    Regrouped(Erased(a, path), Erased(front, path), if last == path then [] else [last], [], []);
  }

  /** Erasing goes entry by entry, in order, and drops exactly the copies of `path`. */
  lemma {:induction false} ErasedExactly(a: seq<bytes>, b: seq<bytes>, path: bytes)
    ensures Erased(a + b, path) == Erased(a, path) + Erased(b, path)
    ensures forall p: bytes :: Erased([p], path) == if p == path then [] else [p]
    decreases |b|
  {
    forall p: bytes ensures Erased([p], path) == if p == path then [] else [p] {
      ErasedOne(p, path);
    }
    if b == [] {
      assert a + b == a;
    } else {
      var front, last := FrontAndLast(b);
      ErasedExactly(a, front, path);
      ErasedStep(a, front, last, path);
    }
  }

  lemma FrontAndLast(list: seq<bytes>) returns (front: seq<bytes>, last: bytes)
    requires list != []
    ensures list == front + [last] && |front| < |list|
  {
    front, last := list[..|list| - 1], list[|list| - 1];
  }

  /** The request has string fields asking for `action` on `path`. */
  predicate Asks(r: Request, action: string, path: bytes)
    requires forall i | 0 <= i < |action| :: action[i] as int < 0x80
  {
    && r.Object?
    && "conf" in r.fields && r.fields["conf"] == Str(path)
    && "action" in r.fields && r.fields["action"] == Str(Ascii(action))
  }

  predicate AsksAddition(r: Request, path: bytes) {
    Asks(r, "add", path)
  }

  predicate AsksRemoval(r: Request, path: bytes) {
    Asks(r, "remove", path)
  }

  lemma ActionsDiffer()
    ensures Ascii("add") != Ascii("remove")
  {
    assert |Ascii("add")| == 3 && |Ascii("remove")| == 6;
  }

  /** "add" adds and "remove" removes; everything else is rejected. */
  lemma EditExactly(r: Request, path: bytes)
    ensures EditOf(r) == Add(path) <==> AsksAddition(r, path)
    ensures EditOf(r) == Remove(path) <==> AsksRemoval(r, path)
  {
    ActionsDiffer();
  }

  lemma RejectedExactly(r: Request)
    ensures EditOf(r).Rejected? <==> forall path :: !AsksAddition(r, path) && !AsksRemoval(r, path)
  {
    forall path ensures (EditOf(r) == Add(path) <==> AsksAddition(r, path)) && (EditOf(r) == Remove(path) <==> AsksRemoval(r, path)) {
      EditExactly(r, path);
    }
    match EditOf(r)
    case Add(path) => assert AsksAddition(r, path);
    case Remove(path) => assert AsksRemoval(r, path);
    case Rejected =>
  }

  function Edited(list: seq<bytes>, edit: Edit): seq<bytes> {
    match edit
    case Add(path) => list + [path]
    case Remove(path) => Erased(list, path)
    case Rejected => list
  }

  /** One edit; the memory changes before the file does, and whether or not the file can be written and renamed. */
  function Updated(s: State, edit: Edit, openOk: bool, renameOk: bool): State {
    if edit.Rejected? then s
    else
      var list := Edited(s.confList, edit);
      var o := s.object_[LIST_KEY := List(list)];
      State(list, o, if openOk && renameOk then o else s.disk)
  }

  predicate Succeeds(edit: Edit, openOk: bool, renameOk: bool) {
    !edit.Rejected? && openOk && renameOk
  }

  // ------------------------------------------------------------------ runs of requests

  datatype Call = Call(edit: Edit, openOk: bool, renameOk: bool)

  function After(s: State, calls: seq<Call>, n: nat): State
    requires n <= |calls|
  {
    if n == 0 then s
    else Updated(After(s, calls, n - 1), calls[n - 1].edit, calls[n - 1].openOk, calls[n - 1].renameOk)
  }

  /** The last of the first n calls whose edit concerns `path`. */
  function LastEdit(calls: seq<Call>, path: bytes, n: nat): Option<Edit>
    requires n <= |calls|
  {
    if n == 0 then None
    else if calls[n - 1].edit == Add(path) || calls[n - 1].edit == Remove(path) then Some(calls[n - 1].edit)
    else LastEdit(calls, path, n - 1)
  }

  /** Last writer wins, failures of the file notwithstanding. */
  lemma {:induction false} LastWriterWins(s: State, calls: seq<Call>, path: bytes, n: nat)
    requires n <= |calls|
    ensures path in After(s, calls, n).confList <==>
            match LastEdit(calls, path, n)
            case None => path in s.confList
            case Some(edit) => edit == Add(path)
  {
    if n == 0 {
    } else {
      LastWriterWins(s, calls, path, n - 1);
    }
  }

  /** A request with the fate of the file it is saved to. */
  datatype Posted = Posted(r: Request, openOk: bool, renameOk: bool)

  function CallFor(p: Posted): Call {
    Call(EditOf(p.r), p.openOk, p.renameOk)
  }

  function CallsFor(ps: seq<Posted>): seq<Call> {
    seq(|ps|, i requires 0 <= i < |ps| => CallFor(ps[i]))
  }

  /** Whether the last of the first n requests to add or remove `path` asked to add it; None if there is none. */
  function LastAsked(ps: seq<Posted>, path: bytes, n: nat): Option<bool>
    requires n <= |ps|
  {
    if n == 0 then None
    else if AsksAddition(ps[n - 1].r, path) then Some(true)
    else if AsksRemoval(ps[n - 1].r, path) then Some(false)
    else LastAsked(ps, path, n - 1)
  }

  lemma {:induction false} LastAskedIsLastEdit(ps: seq<Posted>, path: bytes, n: nat)
    requires n <= |ps|
    ensures LastEdit(CallsFor(ps), path, n) ==
            match LastAsked(ps, path, n)
            case None => None
            case Some(added) => Some(if added then Add(path) else Remove(path))
  {
    if n == 0 {
    } else {
      LastAskedIsLastEdit(ps, path, n - 1);
      EditExactly(ps[n - 1].r, path);
    }
  }

  /** In terms of requests: a path is listed if the last one to add or remove it added it, or none did and it was at first. */
  lemma LastRequestWins(s: State, ps: seq<Posted>, path: bytes, n: nat)
    requires n <= |ps|
    ensures path in After(s, CallsFor(ps), n).confList <==>
            match LastAsked(ps, path, n)
            case None => path in s.confList
            case Some(added) => added
  {
    LastWriterWins(s, CallsFor(ps), path, n);
    LastAskedIsLastEdit(ps, path, n);
  }

  function OtherKeys(o: map<string, Json>): map<string, Json> {
    o - {LIST_KEY}
  }

  /** Object and list are in step, and the file shares every other key with the object. */
  predicate InStep(s: State) {
    && LIST_KEY in s.object_ && s.object_[LIST_KEY] == List(s.confList)
    && LIST_KEY in s.disk
    && OtherKeys(s.disk) == OtherKeys(s.object_)
  }

  /** After any run the object is in step with the list and no key but the list has changed, in memory or on disk. */
  lemma {:induction false} StaysInStep(s: State, calls: seq<Call>, n: nat)
    requires InStep(s) && n <= |calls|
    ensures InStep(After(s, calls, n))
    ensures OtherKeys(After(s, calls, n).object_) == OtherKeys(s.object_)
  {
    if n == 0 {
    } else {
      StaysInStep(s, calls, n - 1);
      var m, list := After(s, calls, n - 1), After(s, calls, n).confList;
      assert OtherKeys(m.object_[LIST_KEY := List(list)]) == OtherKeys(m.object_);
    }
  }

  /** The state right after the last call that reached the disk; None if none did. */
  function LastSaved(s: State, calls: seq<Call>, n: nat): Option<State>
    requires n <= |calls|
  {
    if n == 0 then None
    else if Succeeds(calls[n - 1].edit, calls[n - 1].openOk, calls[n - 1].renameOk) then Some(After(s, calls, n))
    else LastSaved(s, calls, n - 1)
  }

  /** The file always holds the whole object as of the last successful call, and the initial one before any. */
  lemma {:induction false} DiskIsLastSaved(s: State, calls: seq<Call>, n: nat)
    requires InStep(s) && n <= |calls|
    ensures match LastSaved(s, calls, n)
            case None => After(s, calls, n).disk == s.disk
            case Some(t) => After(s, calls, n).disk == t.object_ && InStep(t)
  {
    if n == 0 {
    } else {
      DiskIsLastSaved(s, calls, n - 1);
      StaysInStep(s, calls, n);
    }
  }

  /** Memory and disk agree after a call exactly when it succeeded, or changed nothing and they agreed before. */
  lemma AgreeExactly(s: State, c: Call)
    requires InStep(s)
    ensures var t := Updated(s, c.edit, c.openOk, c.renameOk);
            t.disk == t.object_ <==>
            Succeeds(c.edit, c.openOk, c.renameOk) || s.disk[LIST_KEY] == List(Edited(s.confList, c.edit))
  {
    var t := Updated(s, c.edit, c.openOk, c.renameOk);
    var list := Edited(s.confList, c.edit);
    assert t.object_ == s.object_[LIST_KEY := List(list)];
    if s.disk[LIST_KEY] == List(list) {
      assert s.disk == OtherKeys(s.disk)[LIST_KEY := List(list)];
      assert t.object_ == OtherKeys(s.object_)[LIST_KEY := List(list)];
    }
  }

  /** It does happen that they part: an addition whose temporary file cannot be opened. */
  lemma FailedSaveDiffers()
    ensures exists s: State, c: Call ::
              && InStep(s) && s.disk == s.object_ && !c.edit.Rejected?
              && Updated(s, c.edit, c.openOk, c.renameOk).disk != Updated(s, c.edit, c.openOk, c.renameOk).object_
  {
    var o := map[LIST_KEY := List([])];
    var s, c := State([], o, o), Call(Add([SLASH]), false, true);
    AgreeExactly(s, c);
    assert |Edited(s.confList, c.edit)| == 1;
    assert s.disk[LIST_KEY] == List([]);
    assert List([]) != List(Edited(s.confList, c.edit));
    assert InStep(s) && s.disk == s.object_;
  }

  // ------------------------------------------------------------------ what an update does to the filter

  /** Neither the level nor the names of an added path are checked: the filter is exact afterwards exactly if they pass. */
  lemma AddKeepsExact(list: seq<bytes>, path: bytes)
    ensures Exact(Edited(list, Add(path))) <==> Exact(list) && Reliable(path)
  {
    var more := list + [path];
    ExactExactly(list);
    ExactExactly(more);
    assert more[|list|] == path;
    forall i | 0 <= i < |list| ensures more[i] == list[i] {
    }
  }

  /** Removing a path never makes the filter inexact. */
  lemma RemoveKeepsExact(list: seq<bytes>, path: bytes)
    requires Exact(list)
    ensures Exact(Edited(list, Remove(path)))
  {
    ExactExactly(list);
    ExactExactly(Erased(list, path));
    forall i | 0 <= i < |Erased(list, path)| ensures Reliable(Erased(list, path)[i]) {
      assert Erased(list, path)[i] in list;
    }
  }

  /** After any run of requests whose additions suit it, a write is reported exactly by its file's last edit. */
  lemma FilterAfterRun(s: State, calls: seq<Call>, n: nat, st: Settings,
                       task: Task, ino: nat, d: Dentry, flag: Syscall)
    requires n <= |calls| && st.confList == After(s, calls, n).confList && !st.verbose
    requires IsFile(d) && (flag == Write || flag == CopyFileRange)
    requires ListSuits(s.confList, d)
    requires forall i | 0 <= i < n && calls[i].edit.Add? :: Suits(calls[i].edit.path, d)
    requires task.tgid != 0 && !SkipList.Skipped(st.skip, task.comm)
    ensures Accepts(st, FileEvent(task, ino, d, flag)) <==>
            d.name[0] != DOT
            && (match LastEdit(calls, TruePath(d), n)
                case None => TruePath(d) in s.confList
                case Some(edit) => edit == Add(TruePath(d)))
  {
    SuitsAfter(s, calls, n, d);
    LastWriterWins(s, calls, TruePath(d), n);
    ExactDecision(st, task, ino, d, flag);
  }

  lemma {:induction false} SuitsAfter(s: State, calls: seq<Call>, n: nat, d: Dentry)
    requires n <= |calls| && d.Node? && ListSuits(s.confList, d)
    requires forall i | 0 <= i < n && calls[i].edit.Add? :: Suits(calls[i].edit.path, d)
    ensures ListSuits(After(s, calls, n).confList, d)
  {
    if n == 0 {
    } else {
      SuitsAfter(s, calls, n - 1, d);
      var before, after := After(s, calls, n - 1).confList, After(s, calls, n).confList;
      forall i | 0 <= i < |after| ensures Suits(after[i], d) {
        assert after[i] in before || calls[n - 1].edit == Add(after[i]);
      }
    }
  }
}

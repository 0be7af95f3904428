/** /proc/<pid>/stat: src/post.cpp, split_stat_line and the parsing half of get_procinfo_by_pid_from_system. */
module StatLine {
  import opened Text

  /** std::string::npos; the arithmetic on positions below wraps modulo this plus one. */
  const NPOS: nat := 0xFFFF_FFFF_FFFF_FFFF

  /** No std::string is longer than this. */
  const MAX_STRING: nat := 0x7FFF_FFFF_FFFF_FFFF

  function Wrap(x: int): nat
    requires -0x1_0000_0000_0000_0000 <= x < 0x2_0000_0000_0000_0000
  {
    if x < 0 then x + 0x1_0000_0000_0000_0000
    else if x > NPOS then x - 0x1_0000_0000_0000_0000
    else x
  }

  function Position(k: int): nat
    requires -1 <= k
  {
    if k == -1 then NPOS else k
  }

  /** std::string::substr; None is a thrown out_of_range. */
  function Substr(s: bytes, pos: nat, count: nat): Option<bytes> {
    if pos > |s| then None
    else if pos == 0 then Some(s[..Min(|s|, count)])
    else Some(s[pos..Min(|s|, pos + count)])
  }

  // ------------------------------------------------------------------ blank-separated tokens

  predicate IsToken(t: bytes) {
    t != [] && forall i | 0 <= i < |t| :: !IsSpace(t[i])
  }

  function FirstWord(s: bytes): (w: bytes)
    ensures |w| <= |s|
    ensures s != [] && !IsSpace(s[0]) ==> w != []
  {
    if s != [] && !IsSpace(s[0]) then [s[0]] + FirstWord(s[1..]) else []
  }

  /** Every token `iss >> token` extracts from a stream over `s`. */
  function Tokens(s: bytes): seq<bytes>
    decreases |s|
  {
    var t := SkipSpace(s);
    if t == [] then [] else
    var w := FirstWord(t);
    [w] + Tokens(t[|w|..])
  }

  lemma {:induction false} FirstWordOf(t: bytes, rest: bytes)
    requires forall i | 0 <= i < |t| :: !IsSpace(t[i])
    requires rest == [] || IsSpace(rest[0])
    ensures FirstWord(t + rest) == t
  {
    if t == [] {
      assert t + rest == rest;
    } else {
      assert (t + rest)[1..] == t[1..] + rest;
      FirstWordOf(t[1..], rest);
    }
  }

  lemma FirstToken(t: bytes, rest: bytes)
    requires IsToken(t) && (rest == [] || IsSpace(rest[0]))
    ensures Tokens(t + rest) == [t] + Tokens(rest)
  {
    var s := t + rest;
    assert SkipSpace(s) == s;
    FirstWordOf(t, rest);
    assert s[|t|..] == rest;
  }

  /** Reading tokens undoes joining them with blanks. */
  lemma {:induction false} TokensOfJoin(ts: seq<bytes>)
    requires forall i | 0 <= i < |ts| :: IsToken(ts[i])
    ensures Tokens(Join(ts, SPACE)) == ts
  {
    assert Tokens([]) == [];
    if |ts| == 1 {
      FirstToken(ts[0], []);
      assert ts[0] + [] == ts[0];
    } else if |ts| > 1 {
      var tail := Join(ts[1..], SPACE);
      assert Join(ts, SPACE) == ts[0] + ([SPACE] + tail);
      FirstToken(ts[0], [SPACE] + tail);
      TokensAfterBlank(SPACE, tail);
      TokensOfJoin(ts[1..]);
    }
  }

  /** A blank of any kind in front makes no difference. */
  lemma TokensAfterBlank(b: byte, s: bytes)
    requires b in {0x20, 0x09, 0x0A, 0x0B, 0x0C, 0x0D}
    ensures Tokens([b] + s) == Tokens(s)
  {
    BlankSkipped(b, s);
  }

  // ------------------------------------------------------------------ splitting

  function PidField(line: bytes): bytes {
    var space := IndexOf(line, SPACE);
    if space == -1 then line else line[..space]
  }

  /** Where the second field ends, once the length of the source's substr has wrapped. */
  function CommEnd(p: nat, q: int, n: nat): nat {
    if q == -1 then (if p == 0 then 0 else n)
    else if q + 1 < p then n
    else q + 1
  }

  /** The text from the first '(' through the last ')'. */
  function CommField(line: bytes): bytes
    requires OPEN in line
  {
    var p, q := IndexOf(line, OPEN), LastIndexOf(line, CLOSE);
    line[p..CommEnd(p, q, |line|)]
  }

  predicate Unsplittable(line: bytes) {
    OPEN !in line || line[|line| - 1] == CLOSE
  }

  function RestField(line: bytes): bytes
    requires !Unsplittable(line)
  {
    line[LastIndexOf(line, CLOSE) + 2..]
  }

  /** What split_stat_line returns on any line; None is a thrown out_of_range. */
  function StatFields(line: bytes): Option<seq<bytes>> {
    if Unsplittable(line) then None
    else Some([PidField(line), CommField(line)] + Tokens(RestField(line)))
  }

  lemma PidSubstr(line: bytes)
    requires |line| <= MAX_STRING
    ensures Substr(line, 0, Position(IndexOf(line, SPACE))) == Some(PidField(line))
  {
    assert line[..|line|] == line;
  }

  lemma CommLength(p: nat, q: int, n: nat)
    requires p < n <= MAX_STRING && -1 <= q < n
    ensures Min(n, p + Wrap(Wrap(Position(q) as int - p) as int + 1)) == CommEnd(p, q, n)
  {
  }

  /** With an opening parenthesis the second substr never throws; without one it always does. */
  lemma CommSubstr(line: bytes)
    requires |line| <= MAX_STRING
    ensures var start: int, end: int := Position(IndexOf(line, OPEN)), Position(LastIndexOf(line, CLOSE));
            Substr(line, start, Wrap(Wrap(end - start) as int + 1)) == if OPEN in line then Some(CommField(line)) else None
  {
    if OPEN in line {
      CommLength(IndexOf(line, OPEN), LastIndexOf(line, CLOSE), |line|);
    }
  }

  lemma RestSubstr(line: bytes)
    requires |line| <= MAX_STRING && OPEN in line
    ensures Substr(line, Wrap(Position(LastIndexOf(line, CLOSE)) + 2), NPOS) ==
            if Unsplittable(line) then None else Some(RestField(line))
  {
    var q := LastIndexOf(line, CLOSE);
    if q != -1 && q + 2 <= |line| {
      assert line[q + 2..|line|] == line[q + 2..];
    } else if q == -1 {
      assert line[1..|line|] == line[1..];
    }
  }

  /** `tokens` have been drawn from `text` and `stream` is what remains. */
  ghost predicate Drawn(text: bytes, tokens: seq<bytes>, stream: bytes) {
    tokens + Tokens(stream) == Tokens(text)
  }

  lemma DrawToken(text: bytes, tokens: seq<bytes>, stream: bytes)
    requires Drawn(text, tokens, stream)
    ensures var s := SkipSpace(stream);
            if s == [] then tokens == Tokens(text)
            else Drawn(text, tokens + [FirstWord(s)], s[|FirstWord(s)|..])
  {
    var s := SkipSpace(stream);
    if s != [] {
      var rest := Tokens(s[|FirstWord(s)|..]);
      assert Tokens(stream) == [FirstWord(s)] + rest;
      assert tokens + ([FirstWord(s)] + rest) == (tokens + [FirstWord(s)]) + rest;
    }
  }

  /** The closing loop of split_stat_line, drawing tokens from a string stream. */
  method ReadTokens(text: bytes) returns (tokens: seq<bytes>)
    ensures tokens == Tokens(text)
  {
    tokens := [];
    var stream := text;
    while true
      invariant Drawn(text, tokens, stream)
      decreases |stream|
    {
      DrawToken(text, tokens, stream);
      stream := SkipSpace(stream);
      if stream == [] {
        return;
      }
      var token := FirstWord(stream);
      tokens := tokens + [token];
      stream := stream[|token|..];
    }
  }

  lemma Assembled(line: bytes, tokens: seq<bytes>)
    requires !Unsplittable(line) && tokens == Tokens(RestField(line))
    ensures StatFields(line) == Some([PidField(line)] + [CommField(line)] + tokens)
  {
    assert [PidField(line)] + [CommField(line)] == [PidField(line), CommField(line)];
  }

  lemma UnsplittableExactly(line: bytes)
    ensures StatFields(line) == None <==> OPEN !in line || line[|line| - 1] == CLOSE
  {
  }

  method SplitStatLine(line: bytes) returns (fields: Option<seq<bytes>>)
    requires |line| <= MAX_STRING
    ensures fields == StatFields(line)
    ensures fields.None? <==> OPEN !in line || line[|line| - 1] == CLOSE
  {
    UnsplittableExactly(line);
    // the text up to the first blank
    var start: int, end: int := 0, Position(IndexOf(line, SPACE));
    var item := Substr(line, start, Wrap(end - start));
    PidSubstr(line);
    assert item == Some(PidField(line));
    var result := [item.value];
    // from the first opening to the last closing parenthesis
    start := Position(IndexOf(line, OPEN));
    end := Position(LastIndexOf(line, CLOSE));
    item := Substr(line, start, Wrap(Wrap(end - start) as int + 1));
    CommSubstr(line);
    assert item == if OPEN in line then Some(CommField(line)) else None;
    if item == None {
      return None;
    }
    result := result + [item.value];
    start := Wrap(end + 2);
    // the tokens behind it
    item := Substr(line, start, NPOS);
    RestSubstr(line);
    assert item == if Unsplittable(line) then None else Some(RestField(line));
    if item == None {
      return None;
    }
    var tokens := ReadTokens(item.value);
    Assembled(line, tokens);
    return Some(result + tokens);
  }

  /** A line as the kernel prints it: pid, command name in parentheses, the remaining fields. */
  function PrintStat(pid: bytes, comm: bytes, rest: seq<bytes>): bytes {
    pid + [SPACE, OPEN] + comm + [CLOSE, SPACE] + Join(rest, SPACE)
  }

  lemma PrintedPositions(pid: bytes, comm: bytes, tail: bytes)
    requires SPACE !in pid && OPEN !in pid && CLOSE !in tail
    ensures var line := pid + [SPACE, OPEN] + comm + [CLOSE, SPACE] + tail;
            && IndexOf(line, SPACE) == |pid|
            && IndexOf(line, OPEN) == |pid| + 1
            && LastIndexOf(line, CLOSE) == |pid| + 2 + |comm|
  {
    var line := pid + [SPACE, OPEN] + comm + [CLOSE, SPACE] + tail;
    var p, q := |pid| + 1, |pid| + 2 + |comm|;
    assert line[..|pid|] == pid;
    IndexOfAt(line, SPACE, |pid|);
    assert line[..p] == pid + [SPACE];
    IndexOfAt(line, OPEN, p);
    assert line[q + 1..] == [SPACE] + tail;
    LastIndexOfAt(line, CLOSE, q);
  }

  /** Splitting undoes printing whatever the command name contains: spaces, parentheses, anything. */
  lemma SplitPrinted(pid: bytes, comm: bytes, rest: seq<bytes>)
    requires SPACE !in pid && OPEN !in pid
    requires forall i | 0 <= i < |rest| :: IsToken(rest[i]) && CLOSE !in rest[i]
    ensures StatFields(PrintStat(pid, comm, rest)) == Some([pid, [OPEN] + comm + [CLOSE]] + rest)
  {
    var line, tail := PrintStat(pid, comm, rest), Join(rest, SPACE);
    var p, q := |pid| + 1, |pid| + 2 + |comm|;
    JoinFree(rest, SPACE, CLOSE);
    PrintedPositions(pid, comm, tail);
    assert PidField(line) == pid;
    assert CommField(line) == [OPEN] + comm + [CLOSE];
    assert line[q + 1] == SPACE;
    assert RestField(line) == tail by {
      assert line[q + 2..] == tail;
    }
    TokensOfJoin(rest);
  }

  // ------------------------------------------------------------------ looking a process up

  /** pid_t values above this are refused. */
  const PID_MAX_LIMIT := 4194304

  /** Room in pinfo_t.comm for text, one byte being kept for the terminator. */
  const COMM_ROOM := 31

  /** struct pinfo_t: the parent's pid, the command and its four argument slots. */
  datatype ProcInfo = ProcInfo(parent: nat, comm: bytes, args: seq<bytes>)

  datatype Lookup = Found(info: ProcInfo) | Missing | Threw

  /** The text a C string function sees: everything before the first NUL. */
  function CText(s: bytes): (t: bytes)
    ensures t <= s && NUL !in t
    ensures |t| < |s| ==> s[|t|] == NUL
  {
    var k := IndexOf(s, NUL);
    if k == -1 then s else s[..k]
  }

  /** The answer of the /proc lookup, `line` being None when the stat file cannot be opened. */
  function FromStat(pinfo: ProcInfo, pid: nat, line: Option<bytes>): Lookup {
    if pid == 0 || pid > PID_MAX_LIMIT || line.None? then Missing
    else match StatFields(line.value)
      case None => Threw
      case Some(fields) =>
        if |fields| < 5 then Missing
        else match Stoul(fields[3])
          case None => Threw
          case Some(n) => Found(pinfo.(parent := n % 0x1_0000_0000, comm := Take(CText(fields[1]), COMM_ROOM)))
  }

  predicate TooFewFields(line: bytes) {
    StatFields(line).Some? && |StatFields(line).value| < 5
  }

  /** The line's fourth field, as an unsigned int, and the first 31 bytes of its second. */
  predicate TellsProcess(line: bytes, info: ProcInfo) {
    && StatFields(line).Some? && |StatFields(line).value| >= 5
    && info.comm == Take(CText(StatFields(line).value[1]), 31)
    && Stoul(StatFields(line).value[3]).Some?
    && info.parent == Stoul(StatFields(line).value[3]).value % 0x1_0000_0000
  }

  lemma FromStatExactly(pinfo: ProcInfo, pid: nat, line: Option<bytes>)
    ensures var r := FromStat(pinfo, pid, line);
            && (r.Missing? <==> pid == 0 || pid > 4194304 || line.None? || TooFewFields(line.value))
            && (r.Found? ==> r.info == pinfo.(parent := r.info.parent, comm := r.info.comm)
                             && TellsProcess(line.value, r.info))
  {
  }

  method GetProcInfoFromSystem(pinfo: ProcInfo, pid: nat, line: Option<bytes>) returns (r: Lookup)
    requires line.Some? ==> |line.value| <= MAX_STRING
    ensures r == FromStat(pinfo, pid, line)
    ensures r.Missing? <==> pid == 0 || pid > 4194304 || line.None? || TooFewFields(line.value)
    ensures r.Found? ==> r.info == pinfo.(parent := r.info.parent, comm := r.info.comm) && TellsProcess(line.value, r.info)
  {
    FromStatExactly(pinfo, pid, line);
    if pid == 0 || pid > PID_MAX_LIMIT {
      return Missing;
    }
    if line.None? {
      return Missing;
    }
    var fields := SplitStatLine(line.value);
    if fields.None? {
      return Threw;
    }
    if |fields.value| < 5 {
      return Missing;
    }
    var parent := Stoul(fields.value[3]);
    if parent.None? {
      return Threw;
    }
    return Found(pinfo.(parent := parent.value % 0x1_0000_0000, comm := Take(CText(fields.value[1]), COMM_ROOM)));
  }

  lemma DecIsToken(n: nat)
    ensures IsToken(Dec(n)) && CLOSE !in Dec(n) && OPEN !in Dec(n) && SPACE !in Dec(n)
  {
  }

  lemma FromFields(pinfo: ProcInfo, pid: nat, line: bytes, fields: seq<bytes>, ppid: nat)
    requires 1 <= pid <= PID_MAX_LIMIT && ppid < 0x1_0000_0000
    requires StatFields(line) == Some(fields) && |fields| >= 5 && Stoul(fields[3]) == Some(ppid) && NUL !in fields[1]
    ensures FromStat(pinfo, pid, Some(line)) == Found(pinfo.(parent := ppid, comm := Take(fields[1], COMM_ROOM)))
  {
    assert CText(fields[1]) == fields[1];
  }

  lemma LaterTokens(state: bytes, ppid: nat, more: seq<bytes>)
    requires IsToken(state) && CLOSE !in state
    requires forall i | 0 <= i < |more| :: IsToken(more[i]) && CLOSE !in more[i]
    ensures var rest := [state, Dec(ppid)] + more;
            forall i | 0 <= i < |rest| :: IsToken(rest[i]) && CLOSE !in rest[i]
  {
    var rest := [state, Dec(ppid)] + more;
    forall i | 0 <= i < |rest| ensures IsToken(rest[i]) && CLOSE !in rest[i] {
      if i >= 2 {
        assert rest[i] == more[i - 2];
      } else {
        DecIsToken(ppid);
      }
    }
  }

  /** The lookup recovers the parent and the first 31 bytes of "(comm)" from what the kernel prints for a process. */
  lemma LookupPrinted(pinfo: ProcInfo, pid: nat, comm: bytes, state: bytes, ppid: nat, more: seq<bytes>)
    requires 1 <= pid <= PID_MAX_LIMIT && ppid < 0x1_0000_0000
    requires NUL !in comm
    requires IsToken(state) && CLOSE !in state
    requires more != [] && forall i | 0 <= i < |more| :: IsToken(more[i]) && CLOSE !in more[i]
    ensures FromStat(pinfo, pid, Some(PrintStat(Dec(pid), comm, [state, Dec(ppid)] + more))) ==
            Found(pinfo.(parent := ppid, comm := Take([OPEN] + comm + [CLOSE], COMM_ROOM)))
  {
    var rest := [state, Dec(ppid)] + more;
    var name := [OPEN] + comm + [CLOSE];
    var line, fields := PrintStat(Dec(pid), comm, rest), [Dec(pid), name] + rest;
    DecIsToken(pid);
    LaterTokens(state, ppid, more);
    SplitPrinted(Dec(pid), comm, rest);
    assert NUL !in fields[1];
    StoulInvertsDec(ppid);
    FromFields(pinfo, pid, line, fields, ppid);
  }
}

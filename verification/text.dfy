/** Byte strings, the decimal printer and the C library's decimal readers, shared by every component. */
module Text {

  type byte = x: int | 0 <= x < 0x100

  /** A C++ string, or the text a C character array holds up to its terminating NUL. */
  type bytes = seq<byte>

  datatype Option<+T> = None | Some(value: T)

  const NUL: byte := 0x00
  const SPACE: byte := 0x20
  const OPEN: byte := 0x28
  const CLOSE: byte := 0x29
  const PLUS: byte := 0x2B
  const MINUS: byte := 0x2D
  const DOT: byte := 0x2E
  const SLASH: byte := 0x2F
  const ZERO: byte := 0x30

  /** The bytes of an ASCII literal. */
  function Ascii(s: string): bytes
    requires forall i | 0 <= i < |s| :: s[i] as int < 0x80
  {
    seq(|s|, i requires 0 <= i < |s| => s[i] as int)
  }

  function Min(a: int, b: int): int {
    if a <= b then a else b
  }

  function Take(s: bytes, n: nat): bytes {
    s[..Min(|s|, n)]
  }

  function Concat(parts: seq<bytes>): bytes {
    if parts == [] then [] else parts[0] + Concat(parts[1..])
  }

  lemma {:induction false} ConcatAppend(a: seq<bytes>, b: seq<bytes>)
    ensures Concat(a + b) == Concat(a) + Concat(b)
  {
    if a == [] {
      assert a + b == b;
    } else {
      assert (a + b)[1..] == a[1..] + b;
      ConcatAppend(a[1..], b);
    }
  }

  /** `parts` written one after another with `sep` between neighbours. */
  function Join(parts: seq<bytes>, sep: byte): bytes {
    if parts == [] then []
    else if |parts| == 1 then parts[0]
    else parts[0] + [sep] + Join(parts[1..], sep)
  }

  lemma {:induction false} JoinSnoc(parts: seq<bytes>, last: bytes, sep: byte)
    requires parts != []
    ensures Join(parts + [last], sep) == Join(parts, sep) + [sep] + last
  {
    if |parts| == 1 {
      assert (parts + [last])[1..] == [last];
    } else {
      assert (parts + [last])[1..] == parts[1..] + [last];
      JoinSnoc(parts[1..], last, sep);
    }
  }

  lemma {:induction false} JoinFree(parts: seq<bytes>, sep: byte, b: byte)
    requires forall i | 0 <= i < |parts| :: b !in parts[i]
    requires b != sep
    ensures b !in Join(parts, sep)
  {
    if |parts| <= 1 {
    } else {
      JoinFree(parts[1..], sep, b);
    }
  }

  function Count(s: bytes, b: byte): nat {
    if s == [] then 0 else (if s[0] == b then 1 else 0) + Count(s[1..], b)
  }

  lemma {:induction false} CountAppend(s: bytes, t: bytes, b: byte)
    ensures Count(s + t, b) == Count(s, b) + Count(t, b)
  {
    if s == [] {
      assert s + t == t;
    } else {
      assert (s + t)[1..] == s[1..] + t;
      CountAppend(s[1..], t, b);
    }
  }

  lemma {:induction false} CountAbsent(s: bytes, b: byte)
    requires b !in s
    ensures Count(s, b) == 0
  {
    if s == [] {
    } else {
      CountAbsent(s[1..], b);
    }
  }

  /** Position of the first `b` at or after `from`, or -1. */
  function IndexFrom(s: bytes, b: byte, from: nat): (k: int)
    requires from <= |s|
    ensures k == -1 ==> forall i | from <= i < |s| :: s[i] != b
    ensures k != -1 ==> from <= k < |s| && s[k] == b && forall i | from <= i < k :: s[i] != b
    decreases |s| - from
  {
    if from == |s| then -1 else if s[from] == b then from else IndexFrom(s, b, from + 1)
  }

  /** Position of the last `b` before `to`, or -1. */
  function LastIndexBefore(s: bytes, b: byte, to: nat): (k: int)
    requires to <= |s|
    ensures k == -1 ==> forall i | 0 <= i < to :: s[i] != b
    ensures k != -1 ==> 0 <= k < to && s[k] == b && forall i | k < i < to :: s[i] != b
  {
    if to == 0 then -1 else if s[to - 1] == b then to - 1 else LastIndexBefore(s, b, to - 1)
  }

  /** Position of the first `b`, or -1. */
  function IndexOf(s: bytes, b: byte): (k: int)
    ensures k == -1 <==> b !in s
    ensures k != -1 ==> 0 <= k < |s| && s[k] == b && forall i | 0 <= i < k :: s[i] != b
  {
    IndexFrom(s, b, 0)
  }

  /** Position of the last `b`, or -1. */
  function LastIndexOf(s: bytes, b: byte): (k: int)
    ensures k == -1 <==> b !in s
    ensures k != -1 ==> 0 <= k < |s| && s[k] == b && forall i | k < i < |s| :: s[i] != b
  {
    LastIndexBefore(s, b, |s|)
  }

  lemma IndexOfAt(s: bytes, b: byte, k: nat)
    requires k < |s| && s[k] == b && forall i | 0 <= i < k :: s[i] != b
    ensures IndexOf(s, b) == k
  {
  }

  lemma LastIndexOfAt(s: bytes, b: byte, k: nat)
    requires k < |s| && s[k] == b && forall i | k < i < |s| :: s[i] != b
    ensures LastIndexOf(s, b) == k
  {
  }

  // ------------------------------------------------------------------ splitting

  /** The pieces of `s` between separators, empty ones included. */
  function Split(s: bytes, sep: byte): (r: seq<bytes>)
    ensures r != []
    decreases |s|
  {
    var k := IndexOf(s, sep);
    if k == -1 then [s] else [s[..k]] + Split(s[k + 1..], sep)
  }

  lemma {:induction false} SplitJoin(gs: seq<bytes>, sep: byte)
    requires gs != [] && forall i | 0 <= i < |gs| :: sep !in gs[i]
    ensures Split(Join(gs, sep), sep) == gs
  {
    if |gs| == 1 {
    } else {
      var s, tail := Join(gs, sep), Join(gs[1..], sep);
      IndexOfAt(s, sep, |gs[0]|);
      assert s[..|gs[0]|] == gs[0] && s[|gs[0]| + 1..] == tail;
      SplitJoin(gs[1..], sep);
    }
  }

  lemma JoinCons(first: bytes, rest: seq<bytes>, sep: byte)
    requires rest != []
    ensures Join([first] + rest, sep) == first + [sep] + Join(rest, sep)
  {
    assert ([first] + rest)[1..] == rest;
  }

  /** A text with a separator is its first piece, the separator and the rest. */
  lemma FirstPiece(s: bytes, sep: byte, k: nat)
    requires IndexOf(s, sep) == k
    ensures k < |s| && s == s[..k] + [sep] + s[k + 1..]
    ensures Split(s, sep) == [s[..k]] + Split(s[k + 1..], sep)
  {
  }

  lemma JoinFirst(first: bytes, rest: bytes, parts: seq<bytes>, sep: byte)
    requires parts != [] && Join(parts, sep) == rest
    ensures Join([first] + parts, sep) == first + [sep] + rest
  {
    JoinCons(first, parts, sep);
  }

  lemma {:induction false} JoinSplit(s: bytes, sep: byte)
    ensures Join(Split(s, sep), sep) == s
    decreases |s|
  {
    var k := IndexOf(s, sep);
    if k == -1 {
    } else {
      FirstPiece(s, sep, k);
      JoinSplit(s[k + 1..], sep);
      JoinFirst(s[..k], s[k + 1..], Split(s[k + 1..], sep), sep);
    }
  }

  lemma FirstSeparator(s: bytes, sep: byte) returns (front: bytes, rest: bytes)
    requires sep in s
    ensures s == front + [sep] + rest && sep !in front
  {
    var k := IndexOf(s, sep);
    front, rest := s[..k], s[k + 1..];
  }

  lemma SplitCons(front: bytes, rest: bytes, sep: byte)
    requires sep !in front
    ensures Split(front + [sep] + rest, sep) == [front] + Split(rest, sep)
  {
    var s := front + [sep] + rest;
    IndexOfAt(s, sep, |front|);
    assert s[..|front|] == front && s[|front| + 1..] == rest;
  }

  lemma Regrouped<T>(a: seq<T>, b: seq<T>, c: seq<T>, d: seq<T>, e: seq<T>)
    ensures a + b + c + d + e == a + b + (c + d + e)
    ensures a + b + c + d == a + (b + c + d)
    ensures a + b + c == a + (b + c)
  {
  }

  lemma AppendStep(front: bytes, rest: bytes, b: bytes, sep: byte)
    requires sep !in front && Split(rest + [sep] + b, sep) == Split(rest, sep) + Split(b, sep)
    ensures Split(front + [sep] + rest + [sep] + b, sep) == Split(front + [sep] + rest, sep) + Split(b, sep)
  {
    SplitCons(front, rest, sep);
    SplitCons(front, rest + [sep] + b, sep);
    Regrouped(front, [sep], rest, [sep], b);
    Regrouped([front], Split(rest, sep), Split(b, sep), [], []);
  }

  lemma {:induction false} SplitAppend(a: bytes, b: bytes, sep: byte)
    ensures Split(a + [sep] + b, sep) == Split(a, sep) + Split(b, sep)
    decreases |a|
  {
    if sep in a {
      var front, rest := FirstSeparator(a, sep);
      SplitAppend(rest, b, sep);
      AppendStep(front, rest, b, sep);
    } else {
      SplitCons(a, b, sep);
      assert Split(a, sep) == [a];
    }
  }

  // ------------------------------------------------------------------ decimal text

  predicate IsDigit(b: byte) {
    0x30 <= b <= 0x39
  }

  predicate AllDigits(s: bytes) {
    forall i | 0 <= i < |s| :: IsDigit(s[i])
  }

  /** std::to_string of an unsigned number. */
  function Dec(n: nat): (r: bytes)
    ensures r != [] && AllDigits(r)
    ensures |r| > 1 ==> r[0] != ZERO
    ensures n > 0 ==> r[0] != ZERO
  {
    if n < 10 then [0x30 + n] else Dec(n / 10) + [0x30 + n % 10]
  }

  /** std::to_string of a signed number. */
  function ToString(z: int): bytes {
    if z < 0 then [MINUS] + Dec(-z) else Dec(z)
  }

  /** The number spelt by the first n digits. */
  function ValueTo(ds: bytes, n: nat): nat
    requires n <= |ds| && AllDigits(ds)
  {
    if n == 0 then 0 else 10 * ValueTo(ds, n - 1) + (ds[n - 1] - 0x30)
  }

  function Value(ds: bytes): nat
    requires AllDigits(ds)
  {
    ValueTo(ds, |ds|)
  }

  lemma {:induction false} ValueToPrefix(ds: bytes, more: bytes, n: nat)
    requires n <= |ds| && AllDigits(ds) && AllDigits(ds + more)
    ensures ValueTo(ds + more, n) == ValueTo(ds, n)
  {
    if n == 0 {
    } else {
      ValueToPrefix(ds, more, n - 1);
    }
  }

  lemma {:induction false} DecValue(n: nat)
    ensures Value(Dec(n)) == n
  {
    if n < 10 {
      assert Value(Dec(n)) == 10 * ValueTo(Dec(n), 0) + n;
    } else {
      var front, last := Dec(n / 10), [0x30 + n % 10];
      DecValue(n / 10);
      ValueToPrefix(front, last, |front|);
      assert Value(front + last) == 10 * ValueTo(front + last, |front|) + n % 10;
    }
  }

  /** The decimal printer is injective: two numbers never print alike. */
  lemma DecInjective(m: nat, n: nat)
    requires Dec(m) == Dec(n)
    ensures m == n
  {
    DecValue(m);
    DecValue(n);
  }

  predicate IsSpace(b: byte) {
    b == SPACE || 0x09 <= b <= 0x0D
  }

  /** Where the blanks that start at `from` end. */
  function SpacesEnd(s: bytes, from: nat): (end: nat)
    requires from <= |s|
    ensures from <= end <= |s|
    ensures end < |s| ==> !IsSpace(s[end])
    decreases |s| - from
  {
    if from < |s| && IsSpace(s[from]) then SpacesEnd(s, from + 1) else from
  }

  function SkipSpace(s: bytes): (r: bytes)
    ensures |r| <= |s|
    ensures r != [] ==> !IsSpace(r[0])
  {
    var start := SpacesEnd(s, 0);
    if start == 0 then s else s[start..]
  }

  /** Where the run of digits that starts at `from` ends. */
  function DigitsEnd(s: bytes, from: nat): (end: nat)
    requires from <= |s|
    ensures from <= end <= |s| && AllDigits(s[from..end])
    ensures end < |s| ==> !IsDigit(s[end])
    decreases |s| - from
  {
    if from < |s| && IsDigit(s[from]) then DigitsEnd(s, from + 1) else from
  }

  /** The number spelt by the run of digits that starts at `from`. */
  function ReadDigits(s: bytes, from: nat): Option<nat>
    requires from <= |s|
  {
    var end := DigitsEnd(s, from);
    if end == from then None else Some(Value(s[from..end]))
  }

  predicate Signed(s: bytes, sign: byte) {
    s != [] && s[0] == sign
  }

  function SignLength(s: bytes): (n: nat)
    ensures n <= |s|
  {
    if Signed(s, MINUS) || Signed(s, PLUS) then 1 else 0
  }

  /** What strtol and strtoul read in base ten: blanks, a sign, the longest run of digits; None without a digit. */
  function ReadNumber(s: bytes): Option<int> {
    var t := SkipSpace(s);
    match ReadDigits(t, SignLength(t))
    case None => None
    case Some(n) => Some(if Signed(t, MINUS) then 0 - (n as int) else n as int)
  }

  const LONG_LIMIT := 0x8000_0000_0000_0000
  const ULONG_LIMIT := 0x1_0000_0000_0000_0000

  /** std::stol; None is a thrown invalid_argument or out_of_range. */
  function Stol(s: bytes): Option<int> {
    match ReadNumber(s)
    case None => None
    case Some(z) => if -LONG_LIMIT <= z < LONG_LIMIT then Some(z) else None
  }

  /** std::stoul: a minus sign negates modulo two to the 64; None is a thrown exception. */
  function Stoul(s: bytes): Option<nat> {
    match ReadNumber(s)
    case None => None
    case Some(z) => if -ULONG_LIMIT < z < ULONG_LIMIT then Some(if z < 0 then z + ULONG_LIMIT else z) else None
  }

  lemma {:induction false} DigitsToEnd(s: bytes, from: nat)
    requires from <= |s| && forall i | from <= i < |s| :: IsDigit(s[i])
    ensures DigitsEnd(s, from) == |s|
    decreases |s| - from
  {
    if from == |s| {
    } else {
      DigitsToEnd(s, from + 1);
    }
  }

  lemma NoSpaceToSkip(s: bytes)
    requires s != [] && !IsSpace(s[0])
    ensures SpacesEnd(s, 0) == 0 && SkipSpace(s) == s
  {
  }

  lemma ReadRest(s: bytes, from: nat)
    requires from < |s| && AllDigits(s[from..])
    ensures ReadDigits(s, from) == Some(Value(s[from..]))
  {
    assert forall i | from <= i < |s| :: s[i] == s[from..][i - from];
    DigitsToEnd(s, from);
    assert s[from..|s|] == s[from..];
  }

  lemma ReadUnsigned(ds: bytes)
    requires ds != [] && AllDigits(ds)
    ensures ReadNumber(ds) == Some(Value(ds))
  {
    assert ds[0..] == ds;
    ReadRest(ds, 0);
    assert IsDigit(ds[0]);
    NoSpaceToSkip(ds);
  }

  lemma ReadNegative(ds: bytes)
    requires ds != [] && AllDigits(ds)
    ensures ReadNumber([MINUS] + ds) == Some(0 - (Value(ds) as int))
  {
    var s := [MINUS] + ds;
    NoSpaceToSkip(s);
    assert s[1..] == ds;
    ReadRest(s, 1);
  }

  lemma {:induction false} SpacesShift(front: bytes, s: bytes, from: nat)
    requires from <= |s|
    ensures SpacesEnd(front + s, |front| + from) == |front| + SpacesEnd(s, from)
    decreases |s| - from
  {
    if from == |s| || !IsSpace(s[from]) {
    } else {
      SpacesShift(front, s, from + 1);
    }
  }

  lemma BlankSkipped(b: byte, s: bytes)
    requires b in {0x20, 0x09, 0x0A, 0x0B, 0x0C, 0x0D}
    ensures SkipSpace([b] + s) == SkipSpace(s)
  {
    SpacesShift([b], s, 0);
    var start := SpacesEnd(s, 0);
    assert ([b] + s)[1 + start..] == s[start..];
    assert start == 0 ==> s[start..] == s;
  }

  lemma {:induction false} DigitsStop(s: bytes, from: nat, n: nat)
    requires from <= n <= |s| && (forall i | from <= i < n :: IsDigit(s[i])) && (n < |s| ==> !IsDigit(s[n]))
    ensures DigitsEnd(s, from) == n
    decreases n - from
  {
    if from == n {
    } else {
      DigitsStop(s, from + 1, n);
    }
  }

  /** Blanks in front and text behind the digits are ignored, and a sign is heeded. */
  lemma ReadNumberExactly(b: byte, sign: bytes, ds: bytes, rest: bytes)
    requires b in {0x20, 0x09, 0x0A, 0x0B, 0x0C, 0x0D}
    requires sign == [] || sign == [0x2B] || sign == [0x2D]
    requires ds != [] && AllDigits(ds) && (rest != [] ==> !IsDigit(rest[0]))
    ensures ReadNumber([b] + (sign + ds + rest)) == ReadNumber(sign + ds + rest)
    ensures ReadNumber(sign + ds + rest) == Some(if sign == [0x2D] then 0 - (Value(ds) as int) else Value(ds) as int)
  {
    var s := sign + ds + rest;
    BlankSkipped(b, s);
    assert IsDigit(ds[0]) && s[|sign|] == ds[0];
    NoSpaceToSkip(s);
    forall i | |sign| <= i < |sign| + |ds| ensures IsDigit(s[i]) {
      assert s[i] == ds[i - |sign|];
    }
    DigitsStop(s, |sign|, |sign| + |ds|);
    assert s[|sign|..|sign| + |ds|] == ds;
  }

  /** std::stol inverts std::to_string on every value of a 64-bit long. */
  lemma StolInvertsToString(z: int)
    requires -0x8000_0000_0000_0000 <= z < 0x8000_0000_0000_0000
    ensures Stol(ToString(z)) == Some(z)
  {
    if z < 0 {
      DecValue(-z);
      ReadNegative(Dec(-z));
    } else {
      DecValue(z);
      ReadUnsigned(Dec(z));
    }
  }

  lemma StoulInvertsDec(n: nat)
    requires n < 0x1_0000_0000_0000_0000
    ensures Stoul(Dec(n)) == Some(n)
  {
    DecValue(n);
    ReadUnsigned(Dec(n));
  }
}

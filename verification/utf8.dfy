/** UTF-8 repair of text that goes into JSON: src/post.cpp, sanitize_utf8. */
module Utf8 {
  import opened Text

  /** U+FFFD in UTF-8. */
  const REPLACEMENT: bytes := [0xEF, 0xBF, 0xBD]

  predicate Continuation(b: byte) {
    b / 64 == 2
  }

  /** Number of bytes a lead byte announces; 0 for a byte that cannot lead. */
  function Announced(b: byte): nat {
    if b < 0x80 then 1
    else if b / 32 == 0x6 then 2
    else if b / 16 == 0xE then 3
    else if b / 8 == 0x1E then 4
    else 0
  }

  /** A structurally complete unit: a lead byte and as many continuation bytes as it announces. */
  predicate IsUnit(u: bytes) {
    && u != []
    && |u| == Announced(u[0])
    && forall i | 1 <= i < |u| :: Continuation(u[i])
  }

  predicate AllUnits(us: seq<bytes>) {
    forall i | 0 <= i < |us| :: IsUnit(us[i])
  }

  ghost predicate WellFormed(s: bytes) {
    exists us: seq<bytes> :: AllUnits(us) && Concat(us) == s
  }

  /** Length of the unit at the front of `s`, 0 if there is none. */
  function UnitLength(s: bytes): (k: nat)
    requires s != []
    ensures k <= |s|
    ensures k > 0 ==> IsUnit(s[..k])
    ensures k == 0 ==> forall n | 0 < n <= |s| :: !IsUnit(s[..n])
  {
    var k := Announced(s[0]);
    if 0 < k <= |s| && IsUnit(s[..k]) then k else 0
  }

  // ------------------------------------------------------------------ the scan

  /** One step of the scan: a unit copied to the output, or one byte given up. */
  datatype Piece = Kept(unit: bytes) | Replaced(b: byte) {
    function Input(): bytes {
      match this case Kept(u) => u case Replaced(b) => [b]
    }

    function Output(): (r: bytes)
      ensures Replaced? ==> r == [0xEF, 0xBF, 0xBD]
    {
      match this case Kept(u) => u case Replaced(_) => REPLACEMENT
    }
  }

  function Inputs(ps: seq<Piece>): bytes {
    if ps == [] then [] else ps[0].Input() + Inputs(ps[1..])
  }

  function Outputs(ps: seq<Piece>): seq<bytes> {
    if ps == [] then [] else [ps[0].Output()] + Outputs(ps[1..])
  }

  function ReplacedCount(ps: seq<Piece>): nat {
    if ps == [] then 0 else (if ps[0].Replaced? then 1 else 0) + ReplacedCount(ps[1..])
  }

  function Pieces(s: bytes): seq<Piece> {
    if s == [] then []
    else
      var k := UnitLength(s);
      if k == 0 then [Replaced(s[0])] + Pieces(s[1..]) else [Kept(s[..k])] + Pieces(s[k..])
  }

  function Sanitized(s: bytes): bytes {
    Concat(Outputs(Pieces(s)))
  }

  /** The look-ahead of the loop: the bytes announced at `i` are there and continue the unit. */
  predicate CompleteAt(s: bytes, i: nat)
    requires i < |s|
  {
    var k := Announced(s[i]);
    && 0 < k
    && i + k <= |s|
    && (k >= 2 ==> Continuation(s[i + 1]))
    && (k >= 3 ==> Continuation(s[i + 2]))
    && (k >= 4 ==> Continuation(s[i + 3]))
  }

  /** The loop invariant: `out` is the repaired text of what lies before `i`. */
  ghost predicate ScannedTo(s: bytes, i: nat, out: bytes) {
    i <= |s| && out + Sanitized(s[i..]) == Sanitized(s)
  }

  lemma KeepUnit(s: bytes, i: nat, out: bytes)
    requires i < |s| && ScannedTo(s, i, out) && CompleteAt(s, i)
    ensures ScannedTo(s, i + Announced(s[i]), out + s[i..i + Announced(s[i])])
  {
    var rest, k := s[i..], Announced(s[i]);
    assert rest[..k] == s[i..i + k] && rest[k..] == s[i + k..];
    assert IsUnit(rest[..k]);
    assert Sanitized(rest) == rest[..k] + Sanitized(rest[k..]);
  }

  lemma ReplaceByte(s: bytes, i: nat, out: bytes)
    requires i < |s| && ScannedTo(s, i, out) && !CompleteAt(s, i)
    ensures ScannedTo(s, i + 1, out + REPLACEMENT)
  {
    var rest, k := s[i..], Announced(s[i]);
    assert rest[1..] == s[i + 1..];
    assert UnitLength(rest) == 0;
    assert Sanitized(rest) == REPLACEMENT + Sanitized(rest[1..]);
  }

  /** The loop of sanitize_utf8: an index, a look-ahead of up to three bytes, one byte given up on a mismatch. */
  method Sanitize(s: bytes) returns (out: bytes)
    ensures out == Sanitized(s)
  {
    out := [];
    var i, n := 0, |s|;
    while i < n
      invariant 0 <= i <= n
      invariant ScannedTo(s, i, out)
    {
      var c := s[i];
      if c < 0x80 {
        KeepUnit(s, i, out);
        assert s[i..i + 1] == [c];
        out := out + [c];
        i := i + 1;
      } else if c / 32 == 0x6 {
        if i + 1 < n && s[i + 1] / 64 == 2 {
          KeepUnit(s, i, out);
          out := out + s[i..i + 2];
          i := i + 2;
        } else {
          ReplaceByte(s, i, out);
          out := out + REPLACEMENT;
          i := i + 1;
        }
      } else if c / 16 == 0xE {
        if i + 2 < n && s[i + 1] / 64 == 2 && s[i + 2] / 64 == 2 {
          KeepUnit(s, i, out);
          out := out + s[i..i + 3];
          i := i + 3;
        } else {
          ReplaceByte(s, i, out);
          out := out + REPLACEMENT;
          i := i + 1;
        }
      } else if c / 8 == 0x1E {
        if i + 3 < n && s[i + 1] / 64 == 2 && s[i + 2] / 64 == 2 && s[i + 3] / 64 == 2 {
          KeepUnit(s, i, out);
          out := out + s[i..i + 4];
          i := i + 4;
        } else {
          ReplaceByte(s, i, out);
          out := out + REPLACEMENT;
          i := i + 1;
        }
      } else {
        ReplaceByte(s, i, out);
        out := out + REPLACEMENT;
        i := i + 1;
      }
    }
  }

  // ------------------------------------------------------------------ the scan is the only one of its kind

  /** `ps` splits `s` left to right, keeping a unit wherever one starts and giving up a byte only where none does. */
  predicate IsScan(s: bytes, ps: seq<Piece>)
    decreases |ps|
  {
    if ps == [] then s == []
    else
      && ps[0].Input() <= s
      && (match ps[0]
          case Kept(u) => IsUnit(u)
          case Replaced(_) => forall n | 0 < n <= |s| :: !IsUnit(s[..n]))
      && IsScan(s[|ps[0].Input()|..], ps[1..])
  }

  lemma {:induction false} PiecesScan(s: bytes)
    ensures IsScan(s, Pieces(s))
    decreases |s|
  {
    if s == [] {
    } else {
      var p := Pieces(s)[0];
      assert Pieces(s)[1..] == Pieces(s[|p.Input()|..]);
      PiecesScan(s[|p.Input()|..]);
    }
  }

  lemma FirstPiece(s: bytes, p: Piece)
    requires s != [] && p.Input() <= s
    requires p.Kept? ==> IsUnit(p.unit)
    requires p.Replaced? ==> forall n | 0 < n <= |s| :: !IsUnit(s[..n])
    ensures p == Pieces(s)[0]
  {
    assert p.Input() == s[..|p.Input()|];
  }

  /** The scan is determined by the string. */
  lemma {:induction false} ScanUnique(s: bytes, ps: seq<Piece>)
    requires IsScan(s, ps)
    ensures ps == Pieces(s)
    decreases |ps|
  {
    if ps == [] {
    } else {
      FirstPiece(s, ps[0]);
      ScanUnique(s[|ps[0].Input()|..], ps[1..]);
      assert ps == [ps[0]] + ps[1..];
    }
  }

  /** Nothing is lost or reordered, and the length grows by two for every byte given up. */
  lemma {:induction false} SanitizedAccounts(s: bytes)
    ensures Inputs(Pieces(s)) == s
    ensures |Sanitized(s)| == |s| + 2 * ReplacedCount(Pieces(s))
  {
    if s == [] {
    } else {
      var k := UnitLength(s);
      if k == 0 {
        SanitizedAccounts(s[1..]);
      } else {
        SanitizedAccounts(s[k..]);
      }
    }
  }

  lemma {:induction false} OutputsAreUnits(ps: seq<Piece>)
    requires forall i | 0 <= i < |ps| && ps[i].Kept? :: IsUnit(ps[i].unit)
    ensures AllUnits(Outputs(ps)) && |Outputs(ps)| == |ps|
    ensures forall i | 0 <= i < |ps| :: Outputs(ps)[i] == ps[i].Output()
  {
    if ps == [] {
    } else {
      OutputsAreUnits(ps[1..]);
      assert forall i | 1 <= i < |ps| :: Outputs(ps)[i] == Outputs(ps[1..])[i - 1];
      assert IsUnit(ps[0].Output());
    }
  }

  lemma {:induction false} KeptAreUnits(s: bytes)
    ensures forall i | 0 <= i < |Pieces(s)| && Pieces(s)[i].Kept? :: IsUnit(Pieces(s)[i].unit)
  {
    if s == [] {
    } else {
      var k := UnitLength(s);
      KeptAreUnits(s[if k == 0 then 1 else k..]);
    }
  }

  function AllKept(us: seq<bytes>): seq<Piece> {
    seq(|us|, i requires 0 <= i < |us| => Kept(us[i]))
  }

  lemma UnitAtFront(u: bytes, rest: bytes)
    requires IsUnit(u)
    ensures UnitLength(u + rest) == |u| && (u + rest)[..|u|] == u && (u + rest)[|u|..] == rest
  {
    assert (u + rest)[..|u|] == u;
  }

  /** Units form a prefix code: a string of units is cut back into exactly those units. */
  lemma {:induction false} PiecesOfUnits(us: seq<bytes>)
    requires AllUnits(us)
    ensures Pieces(Concat(us)) == AllKept(us)
    ensures Outputs(AllKept(us)) == us
  {
    if us == [] {
    } else {
      UnitAtFront(us[0], Concat(us[1..]));
      PiecesOfUnits(us[1..]);
      assert AllKept(us)[1..] == AllKept(us[1..]);
    }
  }

  lemma SanitizedUnits(s: bytes)
    ensures AllUnits(Outputs(Pieces(s))) && |Outputs(Pieces(s))| == |Pieces(s)|
    ensures forall i | 0 <= i < |Pieces(s)| :: Outputs(Pieces(s))[i] == Pieces(s)[i].Output()
  {
    KeptAreUnits(s);
    OutputsAreUnits(Pieces(s));
  }

  /** Every output is structurally well formed. */
  lemma SanitizedWellFormed(s: bytes)
    ensures WellFormed(Sanitized(s))
  {
    SanitizedUnits(s);
  }

  /** The well-formed strings are exactly the fixed points; sanitising is idempotent. */
  lemma FixedPoints(s: bytes)
    ensures Sanitized(s) == s <==> WellFormed(s)
    ensures Sanitized(Sanitized(s)) == Sanitized(s)
  {
    SanitizedWellFormed(s);
    forall t | WellFormed(t) ensures Sanitized(t) == t {
      var us :| AllUnits(us) && Concat(us) == t;
      PiecesOfUnits(us);
    }
  }

  // ------------------------------------------------------------------ RFC 3629

  predicate Tail(b: byte) {
    0x80 <= b <= 0xBF
  }

  /** UTF8-char of RFC 3629, section 4, production by production. */
  predicate RfcUnit(u: bytes) {
    || (|u| == 1 && u[0] <= 0x7F)
    || (|u| == 2 && 0xC2 <= u[0] <= 0xDF && Tail(u[1]))
    || (|u| == 3 && Tail(u[2]) && (
          || (u[0] == 0xE0 && 0xA0 <= u[1] <= 0xBF)
          || (0xE1 <= u[0] <= 0xEC && Tail(u[1]))
          || (u[0] == 0xED && 0x80 <= u[1] <= 0x9F)
          || (0xEE <= u[0] <= 0xEF && Tail(u[1]))))
    || (|u| == 4 && Tail(u[2]) && Tail(u[3]) && (
          || (u[0] == 0xF0 && 0x90 <= u[1] <= 0xBF)
          || (0xF1 <= u[0] <= 0xF3 && Tail(u[1]))
          || (u[0] == 0xF4 && 0x80 <= u[1] <= 0x8F)))
  }

  predicate AllRfcUnits(us: seq<bytes>) {
    forall i | 0 <= i < |us| :: RfcUnit(us[i])
  }

  ghost predicate RfcValid(s: bytes) {
    exists us: seq<bytes> :: AllRfcUnits(us) && Concat(us) == s
  }

  function Payload(b: byte): int {
    var n: int := b;
    n - 0x80
  }

  function CodePoint(u: bytes): int
    requires IsUnit(u)
  {
    var lead: int := u[0];
    if |u| == 1 then lead
    else if |u| == 2 then (lead - 0xC0) * 0x40 + Payload(u[1])
    else if |u| == 3 then (lead - 0xE0) * 0x1000 + Payload(u[1]) * 0x40 + Payload(u[2])
    else (lead - 0xF0) * 0x4_0000 + Payload(u[1]) * 0x1000 + Payload(u[2]) * 0x40 + Payload(u[3])
  }

  /** A shorter unit could carry the code point. */
  predicate Overlong(u: bytes)
    requires IsUnit(u)
  {
    || (|u| == 2 && CodePoint(u) < 0x80)
    || (|u| == 3 && CodePoint(u) < 0x800)
    || (|u| == 4 && CodePoint(u) < 0x1_0000)
  }

  predicate Surrogate(u: bytes)
    requires IsUnit(u)
  {
    0xD800 <= CodePoint(u) <= 0xDFFF && !Overlong(u)
  }

  predicate BeyondUnicode(u: bytes)
    requires IsUnit(u)
  {
    CodePoint(u) > 0x10_FFFF
  }

  /** What structure alone misses: the code points RFC 3629 forbids. */
  lemma RfcUnitExactly(u: bytes)
    ensures RfcUnit(u) <==> IsUnit(u) && !Overlong(u) && !Surrogate(u) && !BeyondUnicode(u)
  {
  }

  lemma RfcUnits(us: seq<bytes>)
    requires AllRfcUnits(us)
    ensures AllUnits(us) && Pieces(Concat(us)) == AllKept(us) && Sanitized(Concat(us)) == Concat(us)
  {
    forall i | 0 <= i < |us| ensures IsUnit(us[i]) {
      RfcUnitExactly(us[i]);
    }
    PiecesOfUnits(us);
  }

  /** A string valid under RFC 3629 passes unchanged. */
  lemma RfcValidUnchanged(s: bytes)
    requires RfcValid(s)
    ensures Sanitized(s) == s
  {
    var us :| AllRfcUnits(us) && Concat(us) == s;
    RfcUnits(us);
  }

  predicate KeepsOnlyRfcUnits(s: bytes) {
    forall i | 0 <= i < |Pieces(s)| && Pieces(s)[i].Kept? :: RfcUnit(Pieces(s)[i].unit)
  }

  /** The output is valid under RFC 3629 exactly when no kept unit carries a forbidden code point. */
  lemma RfcValidExactly(s: bytes)
    ensures RfcValid(Sanitized(s)) <==> KeepsOnlyRfcUnits(s)
  {
    var ps, us := Pieces(s), Outputs(Pieces(s));
    SanitizedUnits(s);
    if RfcValid(Sanitized(s)) {
      var vs :| AllRfcUnits(vs) && Concat(vs) == Sanitized(s);
      RfcUnits(vs);
      PiecesOfUnits(us);
      KeptInjective(us, vs);
      forall i | 0 <= i < |ps| && ps[i].Kept? ensures RfcUnit(ps[i].unit) {
        assert us[i] == vs[i];
      }
    }
    if KeepsOnlyRfcUnits(s) {
      assert RfcUnit(REPLACEMENT);
      assert AllRfcUnits(us);
    }
  }

  /** Structure alone does not make the output valid: the overlong form C0 80 passes unchanged. */
  lemma OverlongPasses()
    ensures Sanitized([0xC0, 0x80]) == [0xC0, 0x80] && !RfcValid(Sanitized([0xC0, 0x80]))
  {
    var u: bytes := [0xC0, 0x80];
    assert IsUnit(u) && !RfcUnit(u);
    assert Concat([u]) == u;
    PiecesOfUnits([u]);
    assert Pieces(u)[0] == Kept(u);
    RfcValidExactly(u);
  }

  lemma KeptInjective(us: seq<bytes>, vs: seq<bytes>)
    requires AllKept(us) == AllKept(vs)
    ensures us == vs
  {
    assert |AllKept(us)| == |us| && |AllKept(vs)| == |vs|;
    forall i | 0 <= i < |us| ensures us[i] == vs[i] {
      assert AllKept(us)[i].unit == AllKept(vs)[i].unit;
    }
  }

  // ------------------------------------------------------------------ cutting a string

  lemma NoUnitAcross(a: bytes, b: bytes)
    requires a != [] && UnitLength(a) == 0
    requires b == [] || !Continuation(b[0])
    ensures UnitLength(a + b) == 0
  {
    var s := a + b;
    var n := Announced(a[0]);
    if 0 < n <= |s| {
      if n <= |a| {
        assert s[..n] == a[..n];
      } else {
        assert s[..n][|a|] == b[0];
      }
    }
  }

  lemma PiecesKept(u: bytes, rest: bytes)
    requires IsUnit(u)
    ensures Pieces(u + rest) == [Kept(u)] + Pieces(rest)
  {
    UnitAtFront(u, rest);
  }

  lemma PiecesReplaced(b: byte, rest: bytes)
    requires UnitLength([b] + rest) == 0
    ensures Pieces([b] + rest) == [Replaced(b)] + Pieces(rest)
  {
    assert ([b] + rest)[1..] == rest;
  }

  lemma Prepended(p: Piece, ps: seq<Piece>, qs: seq<Piece>)
    ensures [p] + (ps + qs) == ([p] + ps) + qs
  {
  }

  lemma KeptBeforeCut(u: bytes, rest: bytes, b: bytes)
    requires IsUnit(u) && Pieces(rest + b) == Pieces(rest) + Pieces(b)
    ensures Pieces(u + (rest + b)) == Pieces(u + rest) + Pieces(b)
  {
    PiecesKept(u, rest);
    PiecesKept(u, rest + b);
    Prepended(Kept(u), Pieces(rest), Pieces(b));
  }

  lemma ReplacedBeforeCut(c: byte, rest: bytes, b: bytes)
    requires UnitLength([c] + rest) == 0 && UnitLength([c] + (rest + b)) == 0
    requires Pieces(rest + b) == Pieces(rest) + Pieces(b)
    ensures Pieces([c] + (rest + b)) == Pieces([c] + rest) + Pieces(b)
  {
    PiecesReplaced(c, rest);
    PiecesReplaced(c, rest + b);
    Prepended(Replaced(c), Pieces(rest), Pieces(b));
  }

  lemma {:induction false} PiecesAtSafeCut(a: bytes, b: bytes)
    requires b == [] || !Continuation(b[0])
    ensures Pieces(a + b) == Pieces(a) + Pieces(b)
    decreases |a|
  {
    if a == [] {
      assert a + b == b;
    } else if UnitLength(a) == 0 {
      NoUnitAcross(a, b);
      assert a == [a[0]] + a[1..] && a + b == [a[0]] + (a[1..] + b);
      PiecesAtSafeCut(a[1..], b);
      ReplacedBeforeCut(a[0], a[1..], b);
    } else {
      var k := UnitLength(a);
      assert a == a[..k] + a[k..] && a + b == a[..k] + (a[k..] + b);
      PiecesAtSafeCut(a[k..], b);
      KeptBeforeCut(a[..k], a[k..], b);
    }
  }

  lemma {:induction false} OutputsAppend(ps: seq<Piece>, qs: seq<Piece>)
    ensures Outputs(ps + qs) == Outputs(ps) + Outputs(qs)
  {
    if ps == [] {
      assert ps + qs == qs;
    } else {
      assert (ps + qs)[1..] == ps[1..] + qs;
      OutputsAppend(ps[1..], qs);
    }
  }

  lemma SafeCut(a: bytes, b: bytes)
    requires b == [] || !Continuation(b[0])
    ensures Sanitized(a + b) == Sanitized(a) + Sanitized(b)
  {
    PiecesAtSafeCut(a, b);
    OutputsAppend(Pieces(a), Pieces(b));
    ConcatAppend(Outputs(Pieces(a)), Outputs(Pieces(b)));
  }

  ghost predicate CutsSafely(b: bytes) {
    forall a: bytes :: Sanitized(a + b) == Sanitized(a) + Sanitized(b)
  }

  /** A string may be sanitised apart from whatever precedes it exactly when it does not open with a continuation byte. */
  lemma SafeCutExactly(b: bytes)
    ensures CutsSafely(b) <==> b == [] || !Continuation(b[0])
  {
    if b == [] || !Continuation(b[0]) {
      forall a: bytes ensures Sanitized(a + b) == Sanitized(a) + Sanitized(b) {
        SafeCut(a, b);
      }
    } else {
      var lead: bytes := [0xC3];
      var u := [0xC3, b[0]];
      assert lead + b == u + b[1..];
      UnitAtFront(u, b[1..]);
      assert Sanitized(lead + b)[0] == 0xC3;
      assert UnitLength(lead) == 0;
      assert Pieces(lead) == [Replaced(0xC3)];
      assert Outputs(Pieces(lead)) == [REPLACEMENT];
      assert Sanitized(lead) == REPLACEMENT;
      assert (Sanitized(lead) + Sanitized(b))[0] == 0xEF;
    }
  }

  function SanitizedEach(parts: seq<bytes>): seq<bytes> {
    seq(|parts|, i requires 0 <= i < |parts| => Sanitized(parts[i]))
  }

  /** Sanitising a command line joined with blanks equals joining its separately sanitised words. */
  lemma {:induction false} SanitizedJoin(parts: seq<bytes>)
    ensures Sanitized(Join(parts, SPACE)) == Join(SanitizedEach(parts), SPACE)
  {
    if |parts| == 1 {
    } else if |parts| > 1 {
      var tail := Join(parts[1..], SPACE);
      SanitizedJoin(parts[1..]);
      assert SanitizedEach(parts)[1..] == SanitizedEach(parts[1..]);
      assert parts[0] + [SPACE] + tail == parts[0] + ([SPACE] + tail);
      SafeCut(parts[0], [SPACE] + tail);
      UnitAtFront([SPACE], tail);
      assert Sanitized([SPACE] + tail) == [SPACE] + Sanitized(tail);
    }
  }
}

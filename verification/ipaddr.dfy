/** The server address check of load_config: src/post.cpp, is_valid_ip. */
module IpAddr {
  import opened Text

  /** [0-9]{1,3} */
  predicate Group(g: bytes) {
    1 <= |g| <= 3 && AllDigits(g)
  }

  /** A whole-string match of the address pattern: four groups of one to three digits separated by dots. */
  predicate PatternMatches(ip: bytes) {
    var gs := Split(ip, DOT);
    |gs| == 4 && forall i | 0 <= i < 4 :: Group(gs[i])
  }

  predicate Octet(g: bytes) {
    Group(g) && Value(g) <= 255
  }

  predicate Quad(gs: seq<bytes>) {
    |gs| == 4 && forall i | 0 <= i < 4 :: Octet(gs[i])
  }

  ghost predicate ValidIp(ip: bytes) {
    exists gs :: Quad(gs) && ip == Join(gs, DOT)
  }

  lemma ValidIpSplit(ip: bytes)
    ensures ValidIp(ip) <==> Quad(Split(ip, DOT))
  {
    if ValidIp(ip) {
      var gs :| Quad(gs) && ip == Join(gs, DOT);
      SplitJoin(gs, DOT);
    }
    JoinSplit(ip, DOT);
  }

  /** `rest` is what std::getline has yet to split: the groups from number `done` on. */
  ghost predicate Remaining(gs: seq<bytes>, done: nat, rest: bytes) {
    done < |gs| && Split(rest, DOT) == gs[done..]
  }

  lemma NextGroup(gs: seq<bytes>, done: nat, rest: bytes)
    requires Remaining(gs, done, rest)
    ensures var k := IndexOf(rest, DOT);
            if k == -1 then gs[done] == rest && done + 1 == |gs|
            else gs[done] == rest[..k] && Remaining(gs, done + 1, rest[k + 1..])
  {
    var k := IndexOf(rest, DOT);
    assert gs[done..][0] == gs[done];
    assert gs[done..][1..] == gs[done + 1..];
  }

  /** The pattern, then a second pass that splits at dots and converts every piece. */
  method IsValidIp(ip: bytes) returns (valid: bool)
    ensures valid <==> ValidIp(ip)
  {
    ValidIpSplit(ip);
    if !PatternMatches(ip) {
      return false;
    }
    ghost var gs, done := Split(ip, DOT), 0;
    var rest, more := ip, true;
    while more && rest != []
      invariant 0 <= done <= 4
      invariant if more then Remaining(gs, done, rest) else done == 4
      invariant forall i | 0 <= i < done :: Value(gs[i]) <= 255
      decreases more, |rest|
    {
      var k := IndexOf(rest, DOT);
      NextGroup(gs, done, rest);
      var token := if k == -1 then rest else rest[..k];
      ReadUnsigned(token);
      var num := ReadNumber(token);
      if num.value < 0 || num.value > 255 {
        return false;
      }
      done := done + 1;
      if k == -1 {
        more := false;
      } else {
        rest := rest[k + 1..];
      }
    }
    if more {
      // an address never ends in an empty group
      NextGroup(gs, done, rest);
      assert Group(gs[done]);
    }
    return true;
  }

  function Printed(quad: seq<nat>): bytes {
    Join(PrintedGroups(quad), DOT)
  }

  function PrintedGroups(quad: seq<nat>): seq<bytes> {
    seq(|quad|, i requires 0 <= i < |quad| => Dec(quad[i]))
  }

  predicate FourBytes(quad: seq<nat>) {
    |quad| == 4 && forall i | 0 <= i < 4 :: quad[i] <= 255
  }

  lemma DecOfByte(n: nat)
    requires n <= 255
    ensures Octet(Dec(n)) && Value(Dec(n)) == n
  {
    DecValue(n);
    if n >= 100 {
      assert |Dec(n / 10 / 10)| == 1;
      assert |Dec(n / 10)| == 2;
    } else if n >= 10 {
      assert |Dec(n / 10)| == 1;
    }
  }

  /** Every printed quad of bytes is accepted and reads back to the same bytes. */
  lemma PrintedReadsBack(quad: seq<nat>)
    requires FourBytes(quad)
    ensures ValidIp(Printed(quad))
    ensures var gs := Split(Printed(quad), DOT); Quad(gs) && forall i | 0 <= i < 4 :: Value(gs[i]) == quad[i]
  {
    var gs := PrintedGroups(quad);
    forall i | 0 <= i < 4 ensures Octet(gs[i]) && Value(gs[i]) == quad[i] && DOT !in gs[i] {
      DecOfByte(quad[i]);
    }
    SplitJoin(gs, DOT);
  }

  // ------------------------------------------------------------------ RFC 3986

  /** dec-octet of RFC 3986, section 3.2.2, production by production. */
  predicate DecOctet(g: bytes) {
    && AllDigits(g)
    && (|| |g| == 1
        || (|g| == 2 && 0x31 <= g[0])
        || (|g| == 3 && g[0] == 0x31)
        || (|g| == 3 && g[0] == 0x32 && g[1] <= 0x34)
        || (|g| == 3 && g[0] == 0x32 && g[1] == 0x35 && g[2] <= 0x35))
  }

  ghost predicate Rfc3986Address(ip: bytes) {
    exists gs: seq<bytes> :: |gs| == 4 && (forall i | 0 <= i < 4 :: DecOctet(gs[i])) && ip == Join(gs, DOT)
  }

  predicate LeadingZero(g: bytes) {
    |g| > 1 && g[0] == ZERO
  }

  function Digit(b: byte): nat
    requires IsDigit(b)
  {
    b - 0x30
  }

  lemma ValueSnoc(ds: bytes, d: byte)
    requires AllDigits(ds) && IsDigit(d)
    ensures Value(ds + [d]) == 10 * Value(ds) + Digit(d)
  {
    ValueToPrefix(ds, [d], |ds|);
  }

  lemma ValueOfGroup(g: bytes)
    requires Group(g)
    ensures |g| == 1 ==> Value(g) == Digit(g[0])
    ensures |g| == 2 ==> Value(g) == 10 * Digit(g[0]) + Digit(g[1])
    ensures |g| == 3 ==> Value(g) == 100 * Digit(g[0]) + 10 * Digit(g[1]) + Digit(g[2])
  {
    ValueSnoc([], g[0]);
    assert [] + [g[0]] == g[..1];
    if |g| == 1 {
      assert g == g[..1];
    } else {
      ValueSnoc(g[..1], g[1]);
      assert g[..1] + [g[1]] == g[..2];
      if |g| == 2 {
        assert g == g[..2];
      } else {
        ValueSnoc(g[..2], g[2]);
        assert g == g[..2] + [g[2]];
      }
    }
  }

  lemma DecOctetExactly(g: bytes)
    ensures DecOctet(g) <==> Octet(g) && !LeadingZero(g)
  {
    if Group(g) {
      ValueOfGroup(g);
    }
  }

  /** The check accepts what RFC 3986 accepts and, beyond it, only groups written with leading zeros. */
  lemma AcceptedBeyondRfc(ip: bytes)
    ensures Rfc3986Address(ip) <==> ValidIp(ip) && forall i | 0 <= i < |Split(ip, DOT)| :: !LeadingZero(Split(ip, DOT)[i])
  {
    ValidIpSplit(ip);
    JoinSplit(ip, DOT);
    var gs := Split(ip, DOT);
    forall g ensures DecOctet(g) <==> Octet(g) && !LeadingZero(g) {
      DecOctetExactly(g);
    }
    if Rfc3986Address(ip) {
      var hs: seq<bytes> :| |hs| == 4 && (forall i | 0 <= i < 4 :: DecOctet(hs[i])) && ip == Join(hs, DOT);
      SplitJoin(hs, DOT);
    }
  }
}

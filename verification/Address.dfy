/** Socket addresses as text, as `SocketAddr` of the Rust standard library prints and parses them:
    `a.b.c.d:port` and `[ipv6]:port` or `[ipv6%scope]:port`. IPv6 addresses are printed in the
    form of section 4 of RFC 5952 and read in all forms of section 2.2 of RFC 4291. The printers
    take the text that follows, so that a reader can be applied to what they return. */
module Address {
  import opened Bytes
  import opened Text

  const OPEN: byte := 91
  const CLOSE: byte := 93
  const PERCENT: byte := 37

  datatype Host4 = Host4(a: byte, b: byte, c: byte, d: byte)

  datatype SocketAddr =
    | V4(host: Host4, port: nat)
    | V6(segments: seq<nat>, flowinfo: nat, scope: nat, port: nat)

  predicate ValidSegments(s: seq<nat>) { |s| == 8 && AreGroups(s) }

  predicate AreGroups(s: seq<nat>) { forall i :: 0 <= i < |s| ==> s[i] < 0x1_0000 }

  /** The addresses Rust can represent. */
  predicate Representable(x: SocketAddr) {
    x.port < 0x1_0000 && (x.V6? ==> ValidSegments(x.segments) && x.flowinfo < 0x1_0000_0000 && x.scope < 0x1_0000_0000)
  }

  /** The addresses that survive the trip: the flow information of an IPv6 socket address is not
      printed. */
  predicate ValidAddr(x: SocketAddr) { Representable(x) && (x.V6? ==> x.flowinfo == 0) }

  datatype Parsed<+T> = Parsed(value: T, rest: seq<byte>)

  function AfterChar(s: seq<byte>, c: byte): Option<seq<byte>> {
    if s != [] && s[0] == c then Some(s[1..]) else None
  }

  lemma AfterCharOf(c: byte, tail: seq<byte>)
    ensures AfterChar([c] + tail, c) == Some(tail)
  {
    assert ([c] + tail)[1..] == tail;
  }

  // ----- IPv4 hosts -----

  function Host4Then(h: Host4, tail: seq<byte>): seq<byte> {
    Decimal(h.a) + ([DOT] + (Decimal(h.b) + ([DOT] + (Decimal(h.c) + ([DOT] + (Decimal(h.d) + tail))))))
  }

  function ReadHost4(s: seq<byte>): Option<Parsed<Host4>> {
    var a := OctetThen(s, DOT);
    if a.None? then None else
    var b := OctetThen(a.value.rest, DOT);
    if b.None? then None else
    var c := OctetThen(b.value.rest, DOT);
    if c.None? then None else
    var d := ReadOctet(c.value.rest);
    if d.None? then None else
    ReadDigitsInRange(s, 255);
    ReadDigitsInRange(a.value.rest, 255);
    ReadDigitsInRange(b.value.rest, 255);
    ReadDigitsInRange(c.value.rest, 255);
    Some(Parsed(Host4(a.value.value, b.value.value, c.value.value, d.value.value), d.value.rest))
  }

  lemma Host4RoundTrip(h: Host4, tail: seq<byte>)
    requires !StartsWithDigit(tail)
    ensures ReadHost4(Host4Then(h, tail)) == Some(Parsed(h, tail))
  {
    var afterC := Decimal(h.d) + tail;
    var afterB := Decimal(h.c) + ([DOT] + afterC);
    var afterA := Decimal(h.b) + ([DOT] + afterB);
    OctetThenRoundTrip(h.a, DOT, afterA);
    OctetThenRoundTrip(h.b, DOT, afterB);
    OctetThenRoundTrip(h.c, DOT, afterC);
    OctetRoundTrip(h.d, tail);
  }

  /** Only the printed form of an IPv4 host is read. */
  lemma Host4Exact(s: seq<byte>)
    requires ReadHost4(s).Some?
    ensures s == Host4Then(ReadHost4(s).value.value, ReadHost4(s).value.rest)
  {
    var a := OctetThen(s, DOT);
    var b := OctetThen(a.value.rest, DOT);
    var c := OctetThen(b.value.rest, DOT);
    OctetThenExact(s, DOT);
    OctetThenExact(a.value.rest, DOT);
    OctetThenExact(b.value.rest, DOT);
    OctetExact(c.value.rest);
  }

  // ----- Hexadecimal groups -----

  predicate IsHexDigit(b: byte) { IsDigit(b) || 97 <= b <= 102 || 65 <= b <= 70 }

  function HexValue(b: byte): (v: nat)
    requires IsHexDigit(b)
    ensures v < 16
  {
    if IsDigit(b) then b - ZERO else if b >= 97 then b - 87 else b - 55
  }

  function HexDigit(v: nat): (b: byte)
    requires v < 16
    ensures IsHexDigit(b) && HexValue(b) == v && b < 0x80
  {
    if v < 10 then ZERO + v else 87 + v
  }

  function Hex(n: nat): (s: seq<byte>)
    ensures s != [] && forall i :: 0 <= i < |s| ==> IsHexDigit(s[i]) && s[i] < 0x80
  {
    if n < 16 then [HexDigit(n)] else Hex(n / 16) + [HexDigit(n % 16)]
  }

  predicate StartsWithHexDigit(s: seq<byte>) { s != [] && IsHexDigit(s[0]) }

  /** Reads hexadecimal digits as long as there are any; fails on the fifth. */
  function ReadHexDigits(s: seq<byte>, value: nat, count: nat): Option<Digits>
    decreases |s|
  {
    if !StartsWithHexDigit(s) then Some(Digits(value, count, s))
    else if count == 4 then None
    else ReadHexDigits(s[1..], 16 * value + HexValue(s[0]), count + 1)
  }

  /** A group: one to four hexadecimal digits. */
  function ReadGroup(s: seq<byte>): (r: Option<Digits>)
    ensures r.Some? ==> r.value.value < 0x1_0000
  {
    var r := ReadHexDigits(s, 0, 0);
    HexDigitsInRange(s, 0, 0);
    if r.None? || r.value.count == 0 then None else r
  }

  function Sixteen(k: nat): nat { if k == 0 then 1 else 16 * Sixteen(k - 1) }

  lemma {:induction false} HexDigitsInRange(s: seq<byte>, value: nat, count: nat)
    requires count <= 4 && value < Sixteen(count)
    ensures ReadHexDigits(s, value, count).Some? ==> ReadHexDigits(s, value, count).value.value < 0x1_0000
    decreases |s|
  {
    assert Sixteen(0) == 1 && Sixteen(1) == 16 && Sixteen(2) == 256 && Sixteen(3) == 4096 && Sixteen(4) == 65536;
    if StartsWithHexDigit(s) && count < 4 {
      HexDigitsInRange(s[1..], 16 * value + HexValue(s[0]), count + 1);
    }
  }

  lemma {:induction false} HexLength(n: nat, k: nat)
    requires n < Sixteen(k) && k > 0
    ensures |Hex(n)| <= k
    decreases k
  {
    if n >= 16 {
      HexLength(n / 16, k - 1);
    }
  }

  lemma {:induction false} ReadHex(n: nat, tail: seq<byte>, count: nat)
    requires count + |Hex(n)| <= 4
    ensures ReadHexDigits(Hex(n) + tail, 0, count) == ReadHexDigits(tail, n, count + |Hex(n)|)
    decreases n
  {
    if n < 16 {
      assert (Hex(n) + tail)[1..] == tail;
    } else {
      var last := [HexDigit(n % 16)];
      assert Hex(n) + tail == Hex(n / 16) + (last + tail);
      ReadHex(n / 16, last + tail, count);
      assert (last + tail)[1..] == tail;
    }
  }

  lemma GroupRoundTrip(n: nat, tail: seq<byte>)
    requires n < 0x1_0000 && !StartsWithHexDigit(tail)
    ensures ReadGroup(Hex(n) + tail).Some?
    ensures ReadGroup(Hex(n) + tail).value.value == n && ReadGroup(Hex(n) + tail).value.rest == tail
  {
    assert Sixteen(4) == 16 * (16 * (16 * (16 * Sixteen(0))));
    HexLength(n, 4);
    ReadHex(n, tail, 0);
  }

  /** The decimal digits at the front of a group are not followed by a dot. */
  lemma {:induction false} NoDotAfterDigits(hex: seq<byte>, tail: seq<byte>, value: nat, count: nat, limit: nat)
    requires forall i :: 0 <= i < |hex| ==> IsHexDigit(hex[i])
    requires tail == [] || (tail[0] != DOT && !IsHexDigit(tail[0]))
    ensures var r := ReadDigits(hex + tail, value, count, limit);
            r.Some? ==> r.value.rest == [] || r.value.rest[0] != DOT
    decreases |hex|
  {
    if hex == [] {
      assert hex + tail == tail;
    } else {
      assert (hex + tail)[1..] == hex[1..] + tail;
      if IsDigit(hex[0]) {
        NoDotAfterDigits(hex[1..], tail, 10 * value + (hex[0] - ZERO), count + 1, limit);
      }
    }
  }

  lemma GroupIsNoHost4(n: nat, tail: seq<byte>)
    requires tail == [] || (tail[0] != DOT && !IsHexDigit(tail[0]))
    ensures ReadHost4(Hex(n) + tail).None?
  {
    NoDotAfterDigits(Hex(n), tail, 0, 0, 255);
  }

  // ----- IPv6 hosts -----

  function GroupsThen(groups: seq<nat>, tail: seq<byte>): seq<byte> {
    if groups == [] then tail
    else if |groups| == 1 then Hex(groups[0]) + tail
    else Hex(groups[0]) + ([COLON] + GroupsThen(groups[1..], tail))
  }

  /** The number of zeros at the front. */
  function ZeroRun(s: seq<nat>): (n: nat)
    ensures n <= |s| && forall i :: 0 <= i < n ==> s[i] == 0
    ensures n < |s| ==> s[n] != 0
  {
    if s == [] || s[0] != 0 then 0 else 1 + ZeroRun(s[1..])
  }

  datatype Span = Span(start: nat, length: nat)

  /** The first of the longest runs of zeros. */
  function LongestZeros(s: seq<nat>): (z: Span)
    ensures z.start + z.length <= |s|
    ensures forall i :: z.start <= i < z.start + z.length ==> s[i] == 0
    ensures forall i :: 0 <= i <= |s| ==> ZeroRun(s[i..]) <= z.length
    ensures forall i :: 0 <= i < z.start ==> ZeroRun(s[i..]) < z.length
  {
    if s == [] then Span(0, 0)
    else
      var later := LongestZeros(s[1..]);
      var here := ZeroRun(s);
      assert s[0..] == s;
      assert forall i :: 0 < i <= |s| ==> s[i..] == s[1..][i - 1..];
      if later.length > here then Span(later.start + 1, later.length) else Span(0, here)
  }

  /** An IPv4-mapped address, printed with its IPv4 part in decimal. */
  predicate IsMapped(s: seq<nat>) {
    ValidSegments(s) && s[..5] == [0, 0, 0, 0, 0] && s[5] == 0xFFFF
  }

  function Low(s: seq<nat>): Host4
    requires IsMapped(s)
  {
    Host4(s[6] / 256, s[6] % 256, s[7] / 256, s[7] % 256)
  }

  function Host6Then(s: seq<nat>, tail: seq<byte>): seq<byte> {
    if IsMapped(s) then [COLON] + ([COLON] + (Hex(0xFFFF) + ([COLON] + Host4Then(Low(s), tail))))
    else CompactThen(s, tail)
  }

  function CompactThen(s: seq<nat>, tail: seq<byte>): seq<byte> {
    var z := LongestZeros(s);
    if z.length > 1 then CompressedThen(s, z, tail) else GroupsThen(s, tail)
  }

  function CompressedThen(s: seq<nat>, z: Span, tail: seq<byte>): seq<byte>
    requires z.start + z.length <= |s|
  {
    GroupsThen(s[..z.start], [COLON] + ([COLON] + GroupsThen(s[z.start + z.length..], tail)))
  }

  datatype Groups = Groups(values: seq<nat>, host4: bool, rest: seq<byte>)

  /** Reads groups up to the limit. Two groups may be written as an IPv4 host, which ends the list. */
  function ReadGroups(s: seq<byte>, groups: seq<nat>, limit: nat): (r: Groups)
    requires |groups| <= limit && AreGroups(groups)
    ensures |groups| <= |r.values| <= limit && AreGroups(r.values)
    decreases limit - |groups|
  {
    if |groups| == limit then Groups(groups, false, s)
    else
      var at := if groups == [] then Some(s) else AfterChar(s, COLON);
      if at.None? then Groups(groups, false, s) else
      var host := if |groups| + 1 < limit then ReadHost4(at.value) else None;
      if host.Some? then
        var h := host.value.value;
        Groups(groups + [Pair(h.a, h.b), Pair(h.c, h.d)], true, host.value.rest)
      else
        var g := ReadGroup(at.value);
        if g.None? then Groups(groups, false, s) else ReadGroups(g.value.rest, groups + [g.value.value], limit)
  }

  function Pair(high: byte, low: byte): (n: nat)
    ensures n < 0x1_0000
  {
    var h: nat := high;
    256 * h + low
  }

  function ZeroGroups(k: nat): seq<nat> { seq(k, _ => 0) }

  /** Eight groups, with zeros between the ones given. */
  function AroundZeros(front: seq<nat>, back: seq<nat>): (s: seq<nat>)
    requires |front| + |back| <= 8 && AreGroups(front) && AreGroups(back)
    ensures ValidSegments(s)
  {
    front + ZeroGroups(8 - |front| - |back|) + back
  }

  function AfterDoubleColon(s: seq<byte>): Option<seq<byte>> {
    var first := AfterChar(s, COLON);
    if first.None? then None else AfterChar(first.value, COLON)
  }

  /** An IPv6 host: eight groups, or fewer around one `::`. */
  function ReadHost6(s: seq<byte>): (r: Option<Parsed<seq<nat>>>)
    ensures r.Some? ==> ValidSegments(r.value.value)
  {
    var head := ReadGroups(s, [], 8);
    if |head.values| == 8 then Some(Parsed(head.values, head.rest))
    else if head.host4 then None
    else
      var inner := AfterDoubleColon(head.rest);
      if inner.None? then None else
      var tail := ReadGroups(inner.value, [], 7 - |head.values|);
      Some(Parsed(AroundZeros(head.values, tail.values), tail.rest))
  }

  /** Text after a host that no reader of groups goes into. */
  predicate EndsHost(tail: seq<byte>) {
    tail == [] || (tail[0] != DOT && tail[0] != COLON && !IsHexDigit(tail[0]))
  }

  /** A colon may follow a group, too. */
  predicate EndsGroup(tail: seq<byte>) {
    tail == [] || (tail[0] != DOT && !IsHexDigit(tail[0]))
  }

  /** Where the next group starts: after a colon, unless it is the first one. */
  function Separated(before: seq<nat>, text: seq<byte>): seq<byte> {
    if before == [] then text else [COLON] + text
  }

  lemma GroupStep(g: nat, next: seq<byte>, before: seq<nat>, limit: nat)
    requires g < 0x1_0000 && AreGroups(before) && |before| < limit && EndsGroup(next)
    ensures ReadGroups(Separated(before, Hex(g) + next), before, limit) == ReadGroups(next, before + [g], limit)
  {
    var text := Hex(g) + next;
    AfterCharOf(COLON, text);
    GroupIsNoHost4(g, next);
    GroupRoundTrip(g, next);
  }

  lemma {:induction false} GroupsAreRead(groups: seq<nat>, tail: seq<byte>, before: seq<nat>, limit: nat)
    requires groups != [] && AreGroups(groups) && AreGroups(before) && |before| + |groups| <= limit && EndsGroup(tail)
    ensures ReadGroups(Separated(before, GroupsThen(groups, tail)), before, limit) ==
            ReadGroups(tail, before + groups, limit)
    decreases |groups|
  {
    var g, more := groups[0], groups[1..];
    assert before + groups == (before + [g]) + more;
    if more == [] {
      assert groups == [g];
      GroupStep(g, tail, before, limit);
    } else {
      GroupStep(g, [COLON] + GroupsThen(more, tail), before, limit);
      GroupsAreRead(more, tail, before + [g], limit);
    }
  }

  lemma NothingIsRead(s: seq<byte>)
    requires s == [] || !IsHexDigit(s[0])
    ensures ReadHost4(s).None? && ReadGroup(s).None?
  {
  }

  /** Reading stops before the end of the host and before a double colon. */
  lemma GroupsStop(tail: seq<byte>, before: seq<nat>, limit: nat)
    requires |before| <= limit && AreGroups(before)
    requires EndsHost(tail) || (|tail| >= 2 && tail[0] == COLON && tail[1] == COLON)
    ensures ReadGroups(tail, before, limit) == Groups(before, false, tail)
  {
    NothingIsRead(tail);
    if tail != [] && tail[0] == COLON {
      NothingIsRead(tail[1..]);
    }
  }

  /** A list of groups, possibly empty, is read up to the end of the host or a double colon. */
  lemma ListIsRead(groups: seq<nat>, tail: seq<byte>, limit: nat)
    requires AreGroups(groups) && |groups| <= limit
    requires EndsHost(tail) || (|tail| >= 2 && tail[0] == COLON && tail[1] == COLON)
    ensures ReadGroups(GroupsThen(groups, tail), [], limit) == Groups(groups, false, tail)
  {
    if groups != [] {
      GroupsAreRead(groups, tail, [], limit);
      assert [] + groups == groups;
    }
    GroupsStop(tail, groups, limit);
  }

  lemma DoubleColonIsRead(s: seq<byte>, front: seq<nat>, inner: seq<byte>, back: Groups)
    requires |front| < 8 && AreGroups(front)
    requires ReadGroups(s, [], 8) == Groups(front, false, [COLON] + ([COLON] + inner))
    requires ReadGroups(inner, [], 7 - |front|) == back
    ensures |front| + |back.values| < 8 && AreGroups(back.values)
    ensures ReadHost6(s) == Some(Parsed(AroundZeros(front, back.values), back.rest))
  {
    AfterDoubleColonOf(inner);
  }

  lemma AfterDoubleColonOf(tail: seq<byte>)
    ensures AfterDoubleColon([COLON] + ([COLON] + tail)) == Some(tail)
  {
    AfterCharOf(COLON, [COLON] + tail);
    AfterCharOf(COLON, tail);
  }

  lemma AroundZerosOf(s: seq<nat>, z: Span)
    requires ValidSegments(s) && z.start + z.length <= 8
    requires forall i :: z.start <= i < z.start + z.length ==> s[i] == 0
    ensures AroundZeros(s[..z.start], s[z.start + z.length..]) == s
  {
  }

  lemma CompressedRoundTrip(s: seq<nat>, z: Span, tail: seq<byte>)
    requires ValidSegments(s) && z.length > 1 && z.start + z.length <= 8 && EndsHost(tail)
    requires forall i :: z.start <= i < z.start + z.length ==> s[i] == 0
    ensures ReadHost6(CompressedThen(s, z, tail)) == Some(Parsed(s, tail))
  {
    var front, back := s[..z.start], s[z.start + z.length..];
    var inner := GroupsThen(back, tail);
    ListIsRead(front, [COLON] + ([COLON] + inner), 8);
    ListIsRead(back, tail, 7 - |front|);
    DoubleColonIsRead(CompressedThen(s, z, tail), front, inner, Groups(back, false, tail));
    AroundZerosOf(s, z);
  }

  lemma MappedRoundTrip(s: seq<nat>, tail: seq<byte>)
    requires IsMapped(s) && EndsHost(tail)
    ensures ReadHost6(Host6Then(s, tail)) == Some(Parsed(s, tail))
  {
    var host := Host4Then(Low(s), tail);
    var inner := Hex(0xFFFF) + ([COLON] + host);
    var outer := [COLON] + ([COLON] + inner);
    GroupsStop(outer, [], 8);
    MappedTailIsRead(s, tail);
    DoubleColonIsRead(outer, [], inner, Groups([0xFFFF, s[6], s[7]], true, tail));
    MappedIsAroundZeros(s);
  }

  lemma MappedIsAroundZeros(s: seq<nat>)
    requires IsMapped(s)
    ensures AroundZeros([], [0xFFFF, s[6], s[7]]) == s
  {
    forall i | 0 <= i < 5 ensures s[i] == 0 {
      assert s[i] == s[..5][i];
    }
  }

  lemma MappedTailIsRead(s: seq<nat>, tail: seq<byte>)
    requires IsMapped(s) && EndsHost(tail)
    ensures ReadGroups(Hex(0xFFFF) + ([COLON] + Host4Then(Low(s), tail)), [], 7) ==
            Groups([0xFFFF, s[6], s[7]], true, tail)
  {
    var host := Host4Then(Low(s), tail);
    GroupIsNoHost4(0xFFFF, [COLON] + host);
    GroupRoundTrip(0xFFFF, [COLON] + host);
    AfterCharOf(COLON, host);
    Host4RoundTrip(Low(s), tail);
    assert [0xFFFF] + [s[6], s[7]] == [0xFFFF, s[6], s[7]];
  }

  lemma Host6RoundTrip(s: seq<nat>, tail: seq<byte>)
    requires ValidSegments(s) && EndsHost(tail)
    ensures ReadHost6(Host6Then(s, tail)) == Some(Parsed(s, tail))
  {
    var z := LongestZeros(s);
    if IsMapped(s) {
      MappedRoundTrip(s, tail);
    } else if z.length > 1 {
      CompressedRoundTrip(s, z, tail);
    } else {
      ListIsRead(s, tail, 8);
    }
  }

  // ----- Socket addresses -----

  function PortThen(port: nat): seq<byte> { [COLON] + Decimal(port) }

  function ScopeThen(scope: nat, tail: seq<byte>): seq<byte> {
    if scope == 0 then tail else [PERCENT] + (Decimal(scope) + tail)
  }

  function AddrText(x: SocketAddr): seq<byte> {
    match x
    case V4(host, port) => Host4Then(host, PortThen(port))
    case V6(segments, _, scope, port) =>
      [OPEN] + Host6Then(segments, ScopeThen(scope, [CLOSE] + PortThen(port)))
  }

  /** The colon and the port, up to the end of the text. */
  function ReadPortToEnd(s: seq<byte>): (r: Option<nat>)
    ensures r.Some? ==> r.value < 0x1_0000
  {
    var at := AfterChar(s, COLON);
    if at.None? then None else
    var port := ReadPort(at.value);
    ReadDigitsInRange(at.value, 65535);
    if port.None? || port.value.rest != [] then None else Some(port.value.value)
  }

  /** An optional scope; without a valid one, zero and nothing read. */
  function ReadScope(s: seq<byte>): (r: Parsed<nat>)
    ensures r.value < 0x1_0000_0000
  {
    var at := AfterChar(s, PERCENT);
    if at.None? then Parsed(0, s) else
    var scope := ReadDigits(at.value, 0, 0, 0xFFFF_FFFF);
    ReadDigitsInRange(at.value, 0xFFFF_FFFF);
    if scope.None? || scope.value.count == 0 then Parsed(0, s) else Parsed(scope.value.value, scope.value.rest)
  }

  function ParseV4(s: seq<byte>): (r: Option<SocketAddr>)
    ensures r.Some? ==> r.value.V4? && ValidAddr(r.value)
  {
    var host := ReadHost4(s);
    if host.None? then None else
    var port := ReadPortToEnd(host.value.rest);
    if port.None? then None else Some(V4(host.value.value, port.value))
  }

  function ParseV6(s: seq<byte>): (r: Option<SocketAddr>)
    ensures r.Some? ==> r.value.V6? && ValidAddr(r.value)
  {
    var inner := AfterChar(s, OPEN);
    if inner.None? then None else
    var host := ReadHost6(inner.value);
    if host.None? then None else
    var scope := ReadScope(host.value.rest);
    var closed := AfterChar(scope.rest, CLOSE);
    if closed.None? then None else
    var port := ReadPortToEnd(closed.value);
    if port.None? then None else Some(V6(host.value.value, 0, scope.value, port.value))
  }

  function ParseAddr(s: seq<byte>): (r: Option<SocketAddr>)
    ensures r.Some? ==> ValidAddr(r.value)
  {
    var v4 := ParseV4(s);
    if v4.Some? then v4 else ParseV6(s)
  }

  lemma PortRoundTrip(port: nat)
    requires port < 0x1_0000
    ensures ReadPortToEnd(PortThen(port)) == Some(port)
  {
    AfterCharOf(COLON, Decimal(port));
    ReadDecimal(port, [], 0, 65535);
    assert Decimal(port) + [] == Decimal(port);
  }

  lemma ScopeRoundTrip(scope: nat, tail: seq<byte>)
    requires scope < 0x1_0000_0000 && tail != [] && tail[0] == CLOSE
    ensures ReadScope(ScopeThen(scope, tail)) == Parsed(scope, tail)
    ensures EndsHost(ScopeThen(scope, tail))
  {
    if scope > 0 {
      AfterCharOf(PERCENT, Decimal(scope) + tail);
      ReadDecimal(scope, tail, 0, 0xFFFF_FFFF);
    }
  }

  lemma V4RoundTrip(x: SocketAddr)
    requires x.V4? && ValidAddr(x)
    ensures ParseAddr(AddrText(x)) == Some(x)
  {
    Host4RoundTrip(x.host, PortThen(x.port));
    PortRoundTrip(x.port);
  }

  lemma V6RoundTrip(x: SocketAddr)
    requires x.V6? && ValidAddr(x)
    ensures ParseAddr(AddrText(x)) == Some(x)
  {
    var end := [CLOSE] + PortThen(x.port);
    var after := ScopeThen(x.scope, end);
    ScopeRoundTrip(x.scope, end);
    Host6RoundTrip(x.segments, after);
    AfterCharOf(OPEN, Host6Then(x.segments, after));
    AfterCharOf(CLOSE, PortThen(x.port));
    PortRoundTrip(x.port);
    NothingIsRead(AddrText(x));
  }

  /** Printing and parsing a socket address gives it back. */
  lemma AddrRoundTrip(x: SocketAddr)
    requires ValidAddr(x)
    ensures ParseAddr(AddrText(x)) == Some(x)
  {
    if x.V4? {
      V4RoundTrip(x);
    } else {
      V6RoundTrip(x);
    }
  }

  /** An address survives exactly when it carries no flow information. */
  lemma AddrRoundTripIff(x: SocketAddr)
    requires Representable(x)
    ensures ParseAddr(AddrText(x)) == Some(x) <==> (x.V6? ==> x.flowinfo == 0)
  {
    if ValidAddr(x) {
      AddrRoundTrip(x);
    }
  }

  /** For IPv4 the parser accepts only the printed form, up to leading zeros of the port. */
  lemma ParsedIsPrinted(s: seq<byte>) returns (k: nat)
    requires ParseAddr(s).Some? && ParseAddr(s).value.V4?
    ensures var x := ParseAddr(s).value; s == Host4Then(x.host, [COLON] + (Zeros(k) + Decimal(x.port)))
  {
    Host4Exact(s);
    var rest := ReadHost4(s).value.rest;
    var digits := rest[1..];
    k := PortExact(digits, 0);
    var x := ParseAddr(s).value;
    assert Decimal(x.port) + [] == Decimal(x.port);
    assert rest == [COLON] + digits;
  }

  lemma {:induction false} ZerosAreSkipped(k: nat, t: seq<byte>, count: nat, limit: nat)
    ensures ReadDigits(Zeros(k) + t, 0, count, limit) == ReadDigits(t, 0, count + k, limit)
    decreases k
  {
    if k == 0 {
      assert Zeros(0) + t == t;
    } else {
      assert (Zeros(k) + t)[1..] == Zeros(k - 1) + t;
      ZerosAreSkipped(k - 1, t, count + 1, limit);
    }
  }

  /** The other direction: the printed form with any number of zeros before the port is accepted. */
  lemma PrintedIsParsed(h: Host4, port: nat, k: nat)
    requires port < 0x1_0000
    ensures ParseAddr(Host4Then(h, [COLON] + (Zeros(k) + Decimal(port)))) == Some(V4(h, port))
  {
    Host4RoundTrip(h, [COLON] + (Zeros(k) + Decimal(port)));
    PortWithZeros(port, k);
  }

  lemma PortWithZeros(port: nat, k: nat)
    requires port < 0x1_0000
    ensures ReadPortToEnd([COLON] + (Zeros(k) + Decimal(port))) == Some(port)
  {
    AfterCharOf(COLON, Zeros(k) + Decimal(port));
    ZerosAreSkipped(k, Decimal(port), 0, 65535);
    ReadDecimal(port, [], k, 65535);
    assert Decimal(port) + [] == Decimal(port);
  }

  /** '0' to '9', 'A' to 'F', 'a' to 'f'. */
  predicate AnyHexDigit(b: byte) { 48 <= b <= 57 || 65 <= b <= 70 || 97 <= b <= 102 }

  function DigitValue(b: byte): nat
    requires AnyHexDigit(b)
  {
    if b <= 57 then b - 48 else if b <= 70 then b - 55 else b - 87
  }

  /** The value so far, continued by hexadecimal digits of either case. */
  function Continued(value: nat, digits: seq<byte>): nat
    requires forall i :: 0 <= i < |digits| ==> AnyHexDigit(digits[i])
    decreases |digits|
  {
    if digits == [] then value else Continued(16 * value + DigitValue(digits[0]), digits[1..])
  }

  lemma DropFirst(a: seq<byte>, tail: seq<byte>)
    requires a != []
    ensures (a + tail)[1..] == a[1..] + tail
  {
  }

  lemma {:induction false} DigitsAreRead(digits: seq<byte>, tail: seq<byte>, value: nat, count: nat)
    requires forall i :: 0 <= i < |digits| ==> AnyHexDigit(digits[i])
    requires count + |digits| <= 4 && !StartsWithHexDigit(tail)
    ensures ReadHexDigits(digits + tail, value, count) ==
            Some(Digits(Continued(value, digits), count + |digits|, tail))
    decreases |digits|
  {
    if digits == [] {
      assert digits + tail == tail;
    } else {
      DropFirst(digits, tail);
      DigitsAreRead(digits[1..], tail, 16 * value + DigitValue(digits[0]), count + 1);
    }
  }

  /** A group is read in every form: one to four digits of either case, with or without leading zeros. */
  lemma GroupInAnyForm(digits: seq<byte>, tail: seq<byte>)
    requires forall i :: 0 <= i < |digits| ==> AnyHexDigit(digits[i])
    requires 1 <= |digits| <= 4 && !StartsWithHexDigit(tail)
    ensures ReadGroup(digits + tail) == Some(Digits(Continued(0, digits), |digits|, tail))
  {
    DigitsAreRead(digits, tail, 0, 0);
  }

  /** Whatever text an address was parsed from, printing it and parsing again gives the same one. */
  lemma ReprintingIsStable(s: seq<byte>)
    requires ParseAddr(s).Some?
    ensures ParseAddr(AddrText(ParseAddr(s).value)) == ParseAddr(s)
  {
    AddrRoundTrip(ParseAddr(s).value);
  }

  // ----- The printed form, literally -----

  /** The number that lower-case hexadecimal digits stand for. */
  function Value16(s: seq<byte>): int {
    if s == [] then 0
    else
      var last: int := s[|s| - 1];
      16 * Value16(s[..|s| - 1]) + if last <= 57 then last - 48 else last - 87
  }

  /** Hex(n) is the hexadecimal numeral of n: digits '0' to '9' and 'a' to 'f' that stand for n, without
      leading zeros. */
  lemma {:induction false} HexIsNumeral(n: nat)
    ensures Value16(Hex(n)) == n
    ensures forall i :: 0 <= i < |Hex(n)| ==> 48 <= Hex(n)[i] <= 57 || 97 <= Hex(n)[i] <= 102
    ensures Hex(n)[0] == 48 <==> n == 0
  {
    if n >= 16 {
      HexIsNumeral(n / 16);
      var h := Hex(n);
      assert h[..|h| - 1] == Hex(n / 16);
    }
  }

  /** The punctuation of a socket address: `a.b.c.d:port`, `[host]:port` and `[host%scope]:port`. */
  lemma Punctuation(h: Host4, segments: seq<nat>, flowinfo: nat, scope: nat, port: nat)
    ensures AddrText(V4(h, port)) ==
            Decimal(h.a) + ([46] + (Decimal(h.b) + ([46] +
            (Decimal(h.c) + ([46] + (Decimal(h.d) + ([58] + Decimal(port))))))))
    ensures AddrText(V6(segments, flowinfo, 0, port)) == [91] + Host6Then(segments, [93] + ([58] + Decimal(port)))
    ensures scope > 0 ==>
              var end := [37] + (Decimal(scope) + ([93] + ([58] + Decimal(port))));
              AddrText(V6(segments, flowinfo, scope, port)) == [91] + Host6Then(segments, end)
  {
  }

  /** The groups from i up to j are zero. */
  predicate AllZero(s: seq<nat>, i: nat, j: nat) {
    i <= j <= |s| && forall k :: i <= k < j ==> s[k] == 0
  }

  /** No run of zeros is longer, and none as long starts earlier. */
  ghost predicate FirstLongest(s: seq<nat>, start: nat, end: nat) {
    && AllZero(s, start, end)
    && forall i: nat, j: nat :: AllZero(s, i, j) && i < j ==>
         j - i < end - start || (j - i == end - start && start <= i)
  }

  /** The punctuation of an IPv6 host: groups are joined by single colons, and the first longest run of
      two or more zero groups is replaced by a double colon. */
  lemma Punctuation6(s: seq<nat>, start: nat, end: nat, tail: seq<byte>)
    requires start < end && FirstLongest(s, start, end)
    ensures CompactThen(s, tail) ==
            if end - start > 1 then GroupsThen(s[..start], [58] + ([58] + GroupsThen(s[end..], tail)))
            else GroupsThen(s, tail)
    ensures !IsMapped(s) ==> Host6Then(s, tail) == CompactThen(s, tail)
  {
    LongestIs(s, start, end);
    CompressedPunctuation(s, Span(start, end - start), tail);
    UnmappedIsCompact(s, tail);
  }

  lemma UnmappedIsCompact(s: seq<nat>, tail: seq<byte>)
    ensures !IsMapped(s) ==> Host6Then(s, tail) == CompactThen(s, tail)
  {
  }

  lemma CompressedPunctuation(s: seq<nat>, z: Span, tail: seq<byte>)
    requires z.start + z.length <= |s|
    ensures CompressedThen(s, z, tail) ==
            GroupsThen(s[..z.start], [58] + ([58] + GroupsThen(s[z.start + z.length..], tail)))
  {
  }

  /** An IPv4-mapped address is `::ffff:` and an IPv4 host. */
  lemma MappedPunctuation(s: seq<nat>, tail: seq<byte>)
    requires IsMapped(s)
    ensures Host6Then(s, tail) == [58] + ([58] + (Hex(0xFFFF) + ([58] + Host4Then(Low(s), tail))))
  {
  }

  lemma LongestIs(s: seq<nat>, start: nat, end: nat)
    requires start < end && FirstLongest(s, start, end)
    ensures LongestZeros(s) == Span(start, end - start)
  {
    var z := LongestZeros(s);
    RunIsAtLeast(s, start, end);
    assert s[start..] == s[start..|s|] && z.length >= end - start;
    assert AllZero(s, z.start, z.start + z.length);
    assert z.length == end - start && start <= z.start;
  }

  lemma {:induction false} RunIsAtLeast(s: seq<nat>, start: nat, end: nat)
    requires AllZero(s, start, end)
    ensures ZeroRun(s[start..]) >= end - start
    decreases end - start
  {
    if start < end {
      RunIsAtLeast(s, start + 1, end);
      assert s[start..][1..] == s[start + 1..];
    }
  }

  lemma GroupsJoined(groups: seq<nat>, tail: seq<byte>)
    requires |groups| > 1
    ensures GroupsThen(groups, tail) == Hex(groups[0]) + ([58] + GroupsThen(groups[1..], tail))
    ensures GroupsThen(groups[..1], tail) == Hex(groups[0]) + tail
    ensures GroupsThen([], tail) == tail
  {
  }

  // ----- The printed form fits a message -----

  /** The text is ASCII and at most `room` bytes longer than what follows it. */
  predicate ShortAscii(text: seq<byte>, tail: seq<byte>, room: nat) {
    |text| <= |tail| + room && (IsAscii(tail) ==> IsAscii(text))
  }

  lemma PieceThen(piece: seq<byte>, tail: seq<byte>, room: nat)
    requires IsAscii(piece) && |piece| <= room
    ensures ShortAscii(piece + tail, tail, room)
  {
  }

  lemma Host4IsShort(h: Host4, tail: seq<byte>)
    ensures ShortAscii(Host4Then(h, tail), tail, 15)
  {
    DecimalShape(h.a);
    DecimalShape(h.b);
    DecimalShape(h.c);
    DecimalShape(h.d);
    var afterC := Decimal(h.d) + tail;
    var afterB := Decimal(h.c) + ([DOT] + afterC);
    var afterA := Decimal(h.b) + ([DOT] + afterB);
    PieceThen(Decimal(h.d), tail, 3);
    PieceThen(Decimal(h.c), [DOT] + afterC, 3);
    PieceThen(Decimal(h.b), [DOT] + afterB, 3);
    PieceThen(Decimal(h.a), [DOT] + afterA, 3);
  }

  lemma {:induction false} GroupsAreShort(groups: seq<nat>, tail: seq<byte>)
    requires AreGroups(groups)
    ensures ShortAscii(GroupsThen(groups, tail), tail, 5 * |groups|)
    decreases |groups|
  {
    if groups != [] {
      assert Sixteen(4) == 16 * (16 * (16 * (16 * Sixteen(0))));
      HexLength(groups[0], 4);
      var next := if |groups| == 1 then tail else [COLON] + GroupsThen(groups[1..], tail);
      GroupsAreShort(groups[1..], tail);
      PieceThen(Hex(groups[0]), next, 4);
    }
  }

  lemma CompressedIsShort(s: seq<nat>, z: Span, tail: seq<byte>)
    requires ValidSegments(s) && z.start + z.length <= 8
    ensures ShortAscii(CompressedThen(s, z, tail), tail, 42)
  {
    var front, back := s[..z.start], s[z.start + z.length..];
    var inner := GroupsThen(back, tail);
    GroupsAreShort(back, tail);
    PieceThen([COLON], inner, 1);
    PieceThen([COLON], [COLON] + inner, 1);
    GroupsAreShort(front, [COLON] + ([COLON] + inner));
  }

  lemma MappedIsShort(s: seq<nat>, tail: seq<byte>)
    requires IsMapped(s)
    ensures ShortAscii(Host6Then(s, tail), tail, 42)
  {
    var host := Host4Then(Low(s), tail);
    Host4IsShort(Low(s), tail);
    assert Sixteen(4) == 16 * (16 * (16 * (16 * Sixteen(0))));
    HexLength(0xFFFF, 4);
    PieceThen([COLON], host, 1);
    PieceThen(Hex(0xFFFF), [COLON] + host, 4);
    var inner := Hex(0xFFFF) + ([COLON] + host);
    PieceThen([COLON], inner, 1);
    PieceThen([COLON], [COLON] + inner, 1);
  }

  lemma Host6IsShort(s: seq<nat>, tail: seq<byte>)
    requires ValidSegments(s)
    ensures ShortAscii(Host6Then(s, tail), tail, 42)
  {
    var z := LongestZeros(s);
    if IsMapped(s) {
      MappedIsShort(s, tail);
    } else if z.length > 1 {
      CompressedIsShort(s, z, tail);
    } else {
      GroupsAreShort(s, tail);
    }
  }

  lemma NumberIsShort(n: nat, tail: seq<byte>)
    requires n < 0x1_0000_0000
    ensures ShortAscii(Decimal(n) + tail, tail, 10)
  {
    assert Ten(5) == 100000 && Ten(10) == 100000 * Ten(5) by {
      TenDoubles();
    }
    DecimalLength(n, 10);
    PieceThen(Decimal(n), tail, 10);
  }

  lemma TenDoubles()
    ensures Ten(5) == 100000 && Ten(10) == 100000 * Ten(5)
  {
    assert Ten(2) == 100 && Ten(5) == 1000 * Ten(2);
    assert Ten(7) == 100 * Ten(5) && Ten(10) == 1000 * Ten(7);
  }

  lemma PortIsShort(port: nat)
    requires port < 0x1_0000
    ensures IsAscii(PortThen(port)) && |PortThen(port)| <= 11
  {
    NumberIsShort(port, []);
    assert Decimal(port) + [] == Decimal(port);
  }

  lemma ScopeIsShort(scope: nat, end: seq<byte>)
    requires scope < 0x1_0000_0000 && IsAscii(end)
    ensures IsAscii(ScopeThen(scope, end)) && |ScopeThen(scope, end)| <= |end| + 11
  {
    NumberIsShort(scope, end);
  }

  lemma AddrTextIsShort(x: SocketAddr)
    requires ValidAddr(x)
    ensures IsAscii(AddrText(x)) && |AddrText(x)| <= 70
  {
    var port := PortThen(x.port);
    PortIsShort(x.port);
    if x.V4? {
      Host4IsShort(x.host, port);
    } else {
      ScopeIsShort(x.scope, [CLOSE] + port);
      Host6IsShort(x.segments, ScopeThen(x.scope, [CLOSE] + port));
    }
  }

  /** The text of an address is short ASCII, so it always fits its length prefix. */
  lemma AddrTextIsShortUtf8(x: SocketAddr)
    requires ValidAddr(x)
    ensures IsUtf8(AddrText(x)) && |AddrText(x)| <= 70
  {
    AddrTextIsShort(x);
    AsciiIsUtf8(AddrText(x));
  }
}

/** The text carried by cluster messages: UTF-8 strings and decimal numbers. Strings are represented
    by their bytes. */
module Text {
  import opened Bytes

  // ----- UTF-8 -----

  predicate Continuation(b: byte) { 0x80 <= b <= 0xBF }

  /** Well-formed byte sequences of section 4 of RFC 3629, as checked by `String::from_utf8`. */
  predicate IsUtf8(s: seq<byte>) {
    if s == [] then true
    else if s[0] < 0x80 then IsUtf8(s[1..])
    else if |s| >= 2 && 0xC2 <= s[0] <= 0xDF && Continuation(s[1]) then IsUtf8(s[2..])
    else if |s| >= 3 && Lead3(s[0], s[1]) && Continuation(s[2]) then IsUtf8(s[3..])
    else if |s| >= 4 && Lead4(s[0], s[1]) && Continuation(s[2]) && Continuation(s[3]) then IsUtf8(s[4..])
    else false
  }

  predicate Lead3(a: byte, b: byte) {
    || (a == 0xE0 && 0xA0 <= b <= 0xBF)
    || (a == 0xED && 0x80 <= b <= 0x9F)
    || (0xE1 <= a <= 0xEF && a != 0xED && Continuation(b))
  }

  predicate Lead4(a: byte, b: byte) {
    || (a == 0xF0 && 0x90 <= b <= 0xBF)
    || (0xF1 <= a <= 0xF3 && Continuation(b))
    || (a == 0xF4 && 0x80 <= b <= 0x8F)
  }

  lemma {:induction false} AsciiIsUtf8(s: seq<byte>)
    requires forall i :: 0 <= i < |s| ==> s[i] < 0x80
    ensures IsUtf8(s)
    decreases |s|
  {
    if s != [] {
      AsciiIsUtf8(s[1..]);
    }
  }

  /** The code points UTF-8 encodes: all but the surrogates. */
  predicate IsScalar(c: nat) { c < 0xD800 || 0xE000 <= c < 0x11_0000 }

  /** The bytes of one code point, as in section 3 of RFC 3629. */
  function Utf8Of(c: nat): seq<byte>
    requires IsScalar(c)
  {
    if c < 0x80 then [c]
    else if c < 0x800 then [0xC0 + c / 64, 0x80 + c % 64]
    else if c < 0x1_0000 then [0xE0 + c / 4096, 0x80 + c / 64 % 64, 0x80 + c % 64]
    else [0xF0 + c / 262144, 0x80 + c / 4096 % 64, 0x80 + c / 64 % 64, 0x80 + c % 64]
  }

  predicate AreScalars(cs: seq<nat>) { forall i :: 0 <= i < |cs| ==> IsScalar(cs[i]) }

  function Utf8OfAll(cs: seq<nat>): seq<byte>
    requires AreScalars(cs)
  {
    if cs == [] then [] else Utf8Of(cs[0]) + Utf8OfAll(cs[1..])
  }

  lemma SkipBytes(a: seq<byte>, tail: seq<byte>)
    ensures (a + tail)[|a|..] == tail
  {
  }

  /** The leading bytes of a code point are those IsUtf8 looks for. */
  lemma ShortPointIsUtf8(c: nat, tail: seq<byte>)
    requires c < 0x800
    ensures IsUtf8(Utf8Of(c) + tail) <==> IsUtf8(tail)
  {
    SkipBytes(Utf8Of(c), tail);
  }

  lemma MiddlePointIsUtf8(c: nat, tail: seq<byte>)
    requires 0x800 <= c < 0x1_0000 && IsScalar(c)
    ensures IsUtf8(Utf8Of(c) + tail) <==> IsUtf8(tail)
  {
    SkipBytes(Utf8Of(c), tail);
    assert Lead3(0xE0 + c / 4096, 0x80 + c / 64 % 64);
  }

  lemma LongPointIsUtf8(c: nat, tail: seq<byte>)
    requires 0x1_0000 <= c && IsScalar(c)
    ensures IsUtf8(Utf8Of(c) + tail) <==> IsUtf8(tail)
  {
    SkipBytes(Utf8Of(c), tail);
    assert Lead4(0xF0 + c / 262144, 0x80 + c / 4096 % 64);
  }

  lemma OnePointIsUtf8(c: nat, tail: seq<byte>)
    requires IsScalar(c)
    ensures IsUtf8(Utf8Of(c) + tail) <==> IsUtf8(tail)
  {
    if c < 0x800 {
      ShortPointIsUtf8(c, tail);
    } else if c < 0x1_0000 {
      MiddlePointIsUtf8(c, tail);
    } else {
      LongPointIsUtf8(c, tail);
    }
  }

  lemma {:induction false} EncodedIsUtf8(cs: seq<nat>)
    requires AreScalars(cs)
    ensures IsUtf8(Utf8OfAll(cs))
    decreases |cs|
  {
    if cs != [] {
      EncodedIsUtf8(cs[1..]);
      OnePointIsUtf8(cs[0], Utf8OfAll(cs[1..]));
    }
  }

  lemma TwoBytePoint(a: nat, b: nat) returns (c: nat)
    requires 0xC2 <= a <= 0xDF && 0x80 <= b <= 0xBF
    ensures IsScalar(c) && Utf8Of(c) == [a, b]
  {
    c := (a - 0xC0) * 64 + (b - 0x80);
  }

  lemma ThreeBytePoint(a: nat, b: nat, d: nat) returns (c: nat)
    requires a < 256 && b < 256 && Lead3(a, b) && 0x80 <= d <= 0xBF
    ensures IsScalar(c) && Utf8Of(c) == [a, b, d]
  {
    var high := (a - 0xE0) * 64 + (b - 0x80);
    c := high * 64 + (d - 0x80);
    assert c / 64 == high && c / 4096 == a - 0xE0;
  }

  lemma FourBytePoint(a: nat, b: nat, d: nat, e: nat) returns (c: nat)
    requires a < 256 && b < 256 && Lead4(a, b) && 0x80 <= d <= 0xBF && 0x80 <= e <= 0xBF
    ensures IsScalar(c) && Utf8Of(c) == [a, b, d, e]
  {
    var high := (a - 0xF0) * 64 + (b - 0x80);
    var mid := high * 64 + (d - 0x80);
    c := mid * 64 + (e - 0x80);
    assert c / 64 == mid && c / 4096 == high && c / 262144 == a - 0xF0;
  }

  /** The first code point of a well-formed text, and how many bytes it takes. */
  lemma FirstPoint(s: seq<byte>) returns (c: nat, k: nat)
    requires s != [] && IsUtf8(s)
    ensures IsScalar(c) && 0 < k <= |s| && s[..k] == Utf8Of(c) && IsUtf8(s[k..])
  {
    if s[0] < 0x80 {
      c, k := s[0], 1;
    } else if s[0] <= 0xDF {
      c := TwoBytePoint(s[0], s[1]);
      k := 2;
    } else if s[0] <= 0xEF {
      c := ThreeBytePoint(s[0], s[1], s[2]);
      k := 3;
    } else {
      c := FourBytePoint(s[0], s[1], s[2], s[3]);
      k := 4;
    }
  }

  lemma {:induction false} Utf8IsEncoded(s: seq<byte>) returns (cs: seq<nat>)
    requires IsUtf8(s)
    ensures AreScalars(cs) && Utf8OfAll(cs) == s
    decreases |s|
  {
    if s == [] {
      cs := [];
    } else {
      var c, k := FirstPoint(s);
      var more := Utf8IsEncoded(s[k..]);
      cs := [c] + more;
      assert cs[1..] == more;
      assert s == s[..k] + s[k..];
    }
  }

  /** A byte sequence is well formed exactly when it encodes a list of code points. */
  lemma Utf8Iff(s: seq<byte>)
    ensures IsUtf8(s) <==> exists cs :: AreScalars(cs) && Utf8OfAll(cs) == s
  {
    if IsUtf8(s) {
      var cs := Utf8IsEncoded(s);
    }
    if cs :| AreScalars(cs) && Utf8OfAll(cs) == s {
      EncodedIsUtf8(cs);
    }
  }

  // ----- Numbers -----

  datatype Option<+T> = None | Some(value: T)

  const ZERO: byte := 48
  const DOT: byte := 46
  const COLON: byte := 58

  predicate IsAscii(s: seq<byte>) { forall i :: 0 <= i < |s| ==> s[i] < 0x80 }

  predicate IsDigit(b: byte) { ZERO <= b <= ZERO + 9 }

  function Decimal(n: nat): (s: seq<byte>)
    ensures s != [] && forall i :: 0 <= i < |s| ==> IsDigit(s[i])
  {
    if n < 10 then [ZERO + n] else Decimal(n / 10) + [ZERO + n % 10]
  }

  /** The number that decimal digits stand for. */
  function Value10(s: seq<byte>): int {
    if s == [] then 0 else 10 * Value10(s[..|s| - 1]) + (s[|s| - 1] as int - 48)
  }

  /** Decimal(n) is the decimal numeral of n: digits '0' to '9' that stand for n, without leading
      zeros. */
  lemma {:induction false} DecimalIsNumeral(n: nat)
    ensures Value10(Decimal(n)) == n
    ensures forall i :: 0 <= i < |Decimal(n)| ==> 48 <= Decimal(n)[i] <= 57
    ensures Decimal(n)[0] == 48 <==> n == 0
  {
    if n >= 10 {
      DecimalIsNumeral(n / 10);
      var d := Decimal(n);
      assert d[..|d| - 1] == Decimal(n / 10);
    }
  }

  datatype Digits = Digits(value: nat, count: nat, rest: seq<byte>)

  /** Reads digits as long as there are any; fails when the value passes the limit. */
  function ReadDigits(s: seq<byte>, value: nat, count: nat, limit: nat): Option<Digits>
    decreases |s|
  {
    if s == [] || !IsDigit(s[0]) then Some(Digits(value, count, s))
    else
      var next := 10 * value + (s[0] - ZERO);
      if next > limit then None else ReadDigits(s[1..], next, count + 1, limit)
  }

  /** An octet of an IPv4 address: one to three digits, no leading zero, at most 255. */
  function ReadOctet(s: seq<byte>): Option<Digits> {
    var r := ReadDigits(s, 0, 0, 255);
    if r.None? || r.value.count == 0 || r.value.count > 3 || (r.value.count > 1 && s[0] == ZERO)
    then None else r
  }

  /** A port: at least one digit, leading zeros allowed, at most 65535. */
  function ReadPort(s: seq<byte>): Option<Digits> {
    var r := ReadDigits(s, 0, 0, 65535);
    if r.None? || r.value.count == 0 then None else r
  }

  predicate StartsWithDigit(s: seq<byte>) { s != [] && IsDigit(s[0]) }

  lemma {:induction false} ReadDecimal(n: nat, tail: seq<byte>, count: nat, limit: nat)
    requires n <= limit
    ensures ReadDigits(Decimal(n) + tail, 0, count, limit) == ReadDigits(tail, n, count + |Decimal(n)|, limit)
    decreases n
  {
    if n < 10 {
      assert (Decimal(n) + tail)[1..] == tail;
    } else {
      var last := [ZERO + n % 10];
      assert Decimal(n) + tail == Decimal(n / 10) + (last + tail);
      ReadDecimal(n / 10, last + tail, count, limit);
      assert (last + tail)[1..] == tail;
    }
  }

  lemma {:induction false} DecimalShape(n: nat)
    ensures n > 0 ==> Decimal(n)[0] != ZERO
    ensures n < 10 ==> |Decimal(n)| == 1
    ensures 10 <= n < 100 ==> |Decimal(n)| == 2
    ensures 100 <= n < 1000 ==> |Decimal(n)| == 3
  {
    if n >= 10 {
      DecimalShape(n / 10);
    }
  }

  lemma OctetRoundTrip(n: nat, tail: seq<byte>)
    requires n < 256 && !StartsWithDigit(tail)
    ensures ReadOctet(Decimal(n) + tail) == Some(Digits(n, |Decimal(n)|, tail))
  {
    ReadDecimal(n, tail, 0, 255);
    DecimalShape(n);
  }

  /** An octet followed by the given separator. */
  function OctetThen(s: seq<byte>, separator: byte): Option<Digits> {
    var r := ReadOctet(s);
    if r.None? || r.value.rest == [] || r.value.rest[0] != separator then None
    else Some(r.value.(rest := r.value.rest[1..]))
  }

  lemma ReadDigitsInRange(s: seq<byte>, limit: nat)
    ensures ReadDigits(s, 0, 0, limit).Some? ==> ReadDigits(s, 0, 0, limit).value.value <= limit
  {
    DigitsInRange(s, 0, 0, limit);
  }

  lemma {:induction false} DigitsInRange(s: seq<byte>, value: nat, count: nat, limit: nat)
    requires value <= limit
    ensures ReadDigits(s, value, count, limit).Some? ==> ReadDigits(s, value, count, limit).value.value <= limit
    decreases |s|
  {
    if s != [] && IsDigit(s[0]) {
      var next := 10 * value + (s[0] - ZERO);
      if next <= limit {
        DigitsInRange(s[1..], next, count + 1, limit);
      }
    }
  }

  lemma OctetThenRoundTrip(n: nat, separator: byte, tail: seq<byte>)
    requires n < 256 && !IsDigit(separator)
    ensures OctetThen(Decimal(n) + ([separator] + tail), separator) == Some(Digits(n, |Decimal(n)|, tail))
  {
    OctetRoundTrip(n, [separator] + tail);
    assert ([separator] + tail)[1..] == tail;
  }

  // ----- Exactly what the parser accepts -----

  /** Digits read after a nonzero value extend its decimal form. */
  lemma {:induction false} ReadDigitsExtends(s: seq<byte>, value: nat, count: nat, limit: nat)
    requires value > 0
    ensures var r := ReadDigits(s, value, count, limit);
            r.Some? ==>
              && r.value.value > 0 && r.value.count >= count
              && Decimal(value) + s == Decimal(r.value.value) + r.value.rest
    ensures var r := ReadDigits(s, value, count, limit);
            r.Some? ==> !StartsWithDigit(r.value.rest) && (value <= limit ==> r.value.value <= limit)
    decreases |s|
  {
    if s != [] && IsDigit(s[0]) {
      var next := 10 * value + (s[0] - ZERO);
      if next <= limit {
        assert Decimal(next) == Decimal(value) + [s[0]];
        assert Decimal(value) + s == Decimal(next) + s[1..];
        ReadDigitsExtends(s[1..], next, count + 1, limit);
      }
    }
  }

  /** An octet is accepted exactly when the text starts with its decimal form, up to 255, and no
      further digit follows. */
  lemma OctetExact(s: seq<byte>)
    ensures var r := ReadOctet(s);
            r.Some? ==>
              && r.value.value < 256 && !StartsWithDigit(r.value.rest)
              && s == Decimal(r.value.value) + r.value.rest
  {
    if ReadOctet(s).Some? {
      assert StartsWithDigit(s);
      var first := s[0] - ZERO;
      assert s == Decimal(first) + s[1..];
      if first > 0 {
        ReadDigitsExtends(s[1..], first, 1, 255);
      } else {
        CountGrows(s[1..], 0, 1, 255);
      }
    }
  }

  /** Reading another digit increases the count. */
  lemma {:induction false} CountGrows(s: seq<byte>, value: nat, count: nat, limit: nat)
    ensures var r := ReadDigits(s, value, count, limit);
            r.Some? ==> r.value.count >= count && (StartsWithDigit(s) ==> r.value.count > count)
    ensures var r := ReadDigits(s, value, count, limit);
            r.Some? && r.value.count == count ==> r.value == Digits(value, count, s)
    decreases |s|
  {
    if StartsWithDigit(s) && 10 * value + (s[0] - ZERO) <= limit {
      CountGrows(s[1..], 10 * value + (s[0] - ZERO), count + 1, limit);
    }
  }

  function Zeros(k: nat): seq<byte> { seq(k, _ => ZERO) }

  /** A port is accepted with any number of leading zeros. */
  lemma {:induction false} PortExact(s: seq<byte>, count: nat) returns (k: nat)
    requires ReadDigits(s, 0, count, 65535).Some? && StartsWithDigit(s)
    ensures var r := ReadDigits(s, 0, count, 65535).value;
            s == Zeros(k) + (Decimal(r.value) + r.rest)
    decreases |s|
  {
    var first := s[0] - ZERO;
    if first > 0 {
      ReadDigitsExtends(s[1..], first, count + 1, 65535);
      k := 0;
      assert s == Decimal(first) + s[1..];
      assert Zeros(0) + s == s;
    } else if StartsWithDigit(s[1..]) {
      k := PortExact(s[1..], count + 1);
      assert Zeros(k + 1) == [ZERO] + Zeros(k);
      assert s == [ZERO] + s[1..];
      k := k + 1;
    } else {
      k := 0;
      assert s == Zeros(0) + (Decimal(0) + s[1..]);
    }
  }

  lemma OctetThenExact(s: seq<byte>, separator: byte)
    ensures var r := OctetThen(s, separator);
            r.Some? ==> r.value.value < 256 && s == Decimal(r.value.value) + ([separator] + r.value.rest)
  {
    OctetExact(s);
    var r := ReadOctet(s);
    if r.Some? && r.value.rest != [] {
      assert r.value.rest == [r.value.rest[0]] + r.value.rest[1..];
    }
  }

  /** 10 to the k. */
  function Ten(k: nat): nat { if k == 0 then 1 else 10 * Ten(k - 1) }

  lemma {:induction false} DecimalLength(n: nat, k: nat)
    requires n < Ten(k) && k > 0
    ensures |Decimal(n)| <= k
    decreases k
  {
    if n >= 10 {
      DecimalLength(n / 10, k - 1);
    }
  }
}

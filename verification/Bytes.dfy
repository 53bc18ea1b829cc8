/** Big-endian integers and the cursor results of the `bytes` crate. */
module Bytes {

  type byte = x: int | 0 <= x < 256

  /** Outcome of reading from a buffer. `Panic` is a read past the end. */
  datatype Read<+T> =
    | Ok(value: T, rest: seq<byte>)
    | Err(error: CodecError)
    | Panic
  {
    predicate IsFailure() { !Ok? }

    function PropagateFailure<U>(): Read<U>
      requires IsFailure()
    {
      match this
      case Err(e) => Err(e)
      case Panic => Panic
    }

    function Extract(): (T, seq<byte>)
      requires Ok?
    {
      (value, rest)
    }
  }

  datatype CodecError = InvalidLength | InvalidPayload | UnknownMessageType

  /** 256 to the k. */
  function Range(k: nat): (r: int)
    ensures r > 0
  {
    if k == 0 then 1 else 256 * Range(k - 1)
  }

  /** The k low-order bytes of n, most significant first: `put_u8`, `put_u16`, ... */
  function PutUint(n: nat, k: nat): (s: seq<byte>)
    ensures |s| == k
  {
    if k == 0 then [] else PutUint(n / 256, k - 1) + [n % 256]
  }

  function ValueOf(s: seq<byte>): nat {
    if s == [] then 0 else 256 * ValueOf(s[..|s| - 1]) + s[|s| - 1]
  }

  /** `get_u8`, `get_u16`, ...: panics when fewer than k bytes remain. */
  function GetUint(s: seq<byte>, k: nat): Read<nat> {
    if |s| < k then Panic else Ok(ValueOf(s[..k]), s[k..])
  }

  lemma {:induction false} ValueOfPut(n: nat, k: nat)
    requires n < Range(k)
    ensures ValueOf(PutUint(n, k)) == n
  {
    if k > 0 {
      ValueOfPut(n / 256, k - 1);
      var s := PutUint(n, k);
      assert s[..|s| - 1] == PutUint(n / 256, k - 1);
    }
  }

  /** Writing k bytes and reading k bytes are inverse, in both directions. */
  lemma {:induction false} PutOfValue(s: seq<byte>)
    ensures ValueOf(s) < Range(|s|)
    ensures PutUint(ValueOf(s), |s|) == s
    decreases |s|
  {
    if s != [] {
      PutOfValue(s[..|s| - 1]);
      assert s == s[..|s| - 1] + [s[|s| - 1]];
    }
  }

  /** Reading a number that was just written gives it back and leaves what followed. */
  lemma GetPut(n: nat, k: nat, tail: seq<byte>)
    requires n < Range(k)
    ensures GetUint(PutUint(n, k) + tail, k) == Ok(n, tail)
  {
    ValueOfPut(n, k);
    assert (PutUint(n, k) + tail)[..k] == PutUint(n, k);
    assert (PutUint(n, k) + tail)[k..] == tail;
  }

  lemma GetInRange(s: seq<byte>, k: nat)
    requires |s| >= k
    ensures GetUint(s, k).Ok? && GetUint(s, k).value < Range(k)
  {
    PutOfValue(s[..k]);
  }

  /** The signed reading of k bytes, as in `get_i64`. */
  function ToSigned(n: int, k: nat): int {
    if 2 * n >= Range(k) then n - Range(k) else n
  }

  predicate FitsSigned(n: int, k: nat) {
    -Range(k) <= 2 * n < Range(k)
  }

  /** The bytes a number was read from are the ones it is written as. */
  lemma ReadBack(s: seq<byte>, k: nat, n: nat, rest: seq<byte>)
    requires GetUint(s, k) == Ok(n, rest)
    ensures n < Range(k) && s == PutUint(n, k) + rest
  {
    PutOfValue(s[..k]);
    assert s == s[..k] + s[k..];
  }

  /** `copy_to_slice` of a checked length. */
  function Take(s: seq<byte>, len: nat): Read<seq<byte>> {
    if |s| < len then Err(InvalidLength) else Ok(s[..len], s[len..])
  }

  lemma TakeAppend(a: seq<byte>, tail: seq<byte>)
    ensures Take(a + tail, |a|) == Ok(a, tail)
  {
    assert (a + tail)[..|a|] == a;
    assert (a + tail)[|a|..] == tail;
  }

  /** Reading the first of two written parts leaves the second one. */
  lemma GetPutThen(n: nat, k: nat, next: seq<byte>, tail: seq<byte>)
    requires n < Range(k)
    ensures GetUint((PutUint(n, k) + next) + tail, k) == Ok(n, next + tail)
  {
    assert (PutUint(n, k) + next) + tail == PutUint(n, k) + (next + tail);
    GetPut(n, k, next + tail);
  }

  lemma Assoc(a: seq<byte>, b: seq<byte>, c: seq<byte>)
    ensures (a + b) + c == a + (b + c)
  {
  }

  // ----- Lists -----

  function PutMany<T>(put: T -> seq<byte>, items: seq<T>): seq<byte> {
    if items == [] then [] else put(items[0]) + PutMany(put, items[1..])
  }

  function GetMany<T>(get: seq<byte> -> Read<T>, s: seq<byte>, n: nat): Read<seq<T>>
    decreases n
  {
    if n == 0 then Ok([], s)
    else
      var (x, s1) :- get(s);
      var (xs, s2) :- GetMany(get, s1, n - 1);
      Ok([x] + xs, s2)
  }

  lemma {:induction false} PutManyConcat<T>(put: T -> seq<byte>, a: seq<T>, b: seq<T>)
    ensures PutMany(put, a + b) == PutMany(put, a) + PutMany(put, b)
    decreases |a|
  {
    if a == [] {
      assert a + b == b;
    } else {
      assert (a + b)[1..] == a[1..] + b;
      PutManyConcat(put, a[1..], b);
    }
  }

  /** If single items survive the trip, so do lists of them. */
  lemma {:induction false} ManyRoundTrip<T>(put: T -> seq<byte>, get: seq<byte> -> Read<T>, items: seq<T>,
                                         tail: seq<byte>)
    requires forall i, t :: 0 <= i < |items| ==> get(put(items[i]) + t) == Ok(items[i], t)
    ensures GetMany(get, PutMany(put, items) + tail, |items|) == Ok(items, tail)
    decreases |items|
  {
    if items == [] {
      assert PutMany(put, items) + tail == tail;
    } else {
      Assoc(put(items[0]), PutMany(put, items[1..]), tail);
      forall i, t | 0 <= i < |items[1..]| ensures get(put(items[1..][i]) + t) == Ok(items[1..][i], t) {
        assert items[1..][i] == items[i + 1];
      }
      ManyRoundTrip(put, get, items[1..], tail);
      assert [items[0]] + items[1..] == items;
    }
  }

  /** A list read has the announced number of items, each as the item reader returns them. */
  lemma {:induction false} ManyFit<T(!new)>(get: seq<byte> -> Read<T>, fits: T -> bool, s: seq<byte>, n: nat)
    requires forall t :: get(t).Ok? ==> fits(get(t).value)
    ensures GetMany(get, s, n).Ok? ==>
              |GetMany(get, s, n).value| == n && forall i :: 0 <= i < n ==> fits(GetMany(get, s, n).value[i])
    decreases n
  {
    if n > 0 && get(s).Ok? {
      ManyFit(get, fits, get(s).rest, n - 1);
    }
  }

  /** Item i is reached, and reading it panics. */
  predicate PanicsAt<T>(get: seq<byte> -> Read<T>, s: seq<byte>, i: nat) {
    var before := GetMany(get, s, i);
    before.Ok? && get(before.rest).Panic?
  }

  /** Reading a list panics exactly when it reaches an item whose reading panics. */
  lemma {:induction false} ManyPanicsIff<T>(get: seq<byte> -> Read<T>, s: seq<byte>, n: nat)
    ensures GetMany(get, s, n).Panic? <==> exists i: nat :: i < n && PanicsAt(get, s, i)
    decreases n
  {
    if n > 0 {
      assert PanicsAt(get, s, 0) <==> get(s).Panic?;
      if get(s).Ok? {
        var rest := get(s).rest;
        ManyPanicsIff(get, rest, n - 1);
        forall i: nat ensures PanicsAt(get, s, i + 1) <==> PanicsAt(get, rest, i) {
        }
        if i: nat :| i < n && PanicsAt(get, s, i) {
          assert PanicsAt(get, rest, i - 1);
        }
        if i: nat :| i < n - 1 && PanicsAt(get, rest, i) {
          assert PanicsAt(get, s, i + 1);
        }
      } else if i: nat :| i < n && PanicsAt(get, s, i) {
        assert i == 0;
      }
    }
  }

  lemma {:induction false} ManyNoPanic<T(!new)>(get: seq<byte> -> Read<T>, s: seq<byte>, n: nat)
    requires forall t :: !get(t).Panic?
    ensures !GetMany(get, s, n).Panic?
    decreases n
  {
    if n > 0 && get(s).Ok? {
      ManyNoPanic(get, get(s).rest, n - 1);
    }
  }

  /** If single items are read only from the bytes they are written as, so are lists of them. */
  lemma {:induction false} ManyExact<T>(put: T -> seq<byte>, get: seq<byte> -> Read<T>, s: seq<byte>, n: nat)
    requires forall t :: get(t).Ok? ==> t == put(get(t).value) + get(t).rest
    ensures GetMany(get, s, n).Ok? ==>
              |GetMany(get, s, n).value| == n && s == PutMany(put, GetMany(get, s, n).value) + GetMany(get, s, n).rest
    decreases n
  {
    if n == 0 {
      assert PutMany(put, []) + s == s;
    } else if get(s).Ok? {
      var x, rest := get(s).value, get(s).rest;
      ManyExact(put, get, rest, n - 1);
      var more := GetMany(get, rest, n - 1);
      if more.Ok? {
        assert ([x] + more.value)[1..] == more.value;
        Assoc(put(x), PutMany(put, more.value), more.rest);
      }
    }
  }
}

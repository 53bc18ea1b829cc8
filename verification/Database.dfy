/** The shared table of devices: its rows, the choice of the least loaded bucket in both engines,
    and the owner updates. */
module Database {
  import opened Basics

  datatype Row = Row(bucket: int, owner: Node)

  type Rows = map<Device, Row>

  // ----- Rows -----

  ghost function InBucket(rows: Rows, b: int): set<Device> {
    set d | d in rows && rows[d].bucket == b
  }

  ghost function Count(rows: Rows, b: int): nat { |InBucket(rows, b)| }

  ghost function OwnedBy(rows: Rows, n: Node): set<Device> {
    set d | d in rows && rows[d].owner == n
  }

  /** Writing the owner of a device that has no row changes nothing. */
  function WithOwner(rows: Rows, d: Device, n: Node): Rows {
    if d in rows then rows[d := rows[d].(owner := n)] else rows
  }

  ghost function Among(rows: Rows, seen: set<Device>, b: int): set<Device> {
    set d | d in seen && d in rows && rows[d].bucket == b
  }

  ghost function CountAmong(rows: Rows, seen: set<Device>, b: int): nat { |Among(rows, seen, b)| }

  lemma CountOneMore(rows: Rows, seen: set<Device>, d: Device, b: int)
    requires d in rows && d !in seen
    ensures CountAmong(rows, seen + {d}, b) == CountAmong(rows, seen, b) + if rows[d].bucket == b then 1 else 0
  {
    assert Among(rows, seen + {d}, b) == Among(rows, seen, b) + if rows[d].bucket == b then {d} else {};
  }

  /** s lists the set once each, in some order. */
  ghost predicate Lists(s: seq<Device>, devices: set<Device>) {
    NoDuplicates(s) && forall d :: d in s <==> d in devices
  }

  /** A listing of a set has as many elements as the set. */
  lemma {:induction false} ListsSize(s: seq<Device>, devices: set<Device>)
    requires Lists(s, devices)
    ensures |s| == |devices|
    decreases |s|
  {
    if s == [] {
      assert devices == {};
    } else {
      var last := s[|s| - 1];
      var front := s[..|s| - 1];
      assert s == front + [last];
      forall d ensures d in front <==> d in devices - {last} {
      }
      ListsSize(front, devices - {last});
    }
  }

  // ----- The least loaded bucket -----

  /** The bucket both engines look for: fewest devices, the lowest number among equals. */
  ghost predicate IsFirstLeast(rows: Rows, total: int, b: int) {
    && 0 <= b < total
    && (forall c :: 0 <= c < total ==> Count(rows, b) <= Count(rows, c))
    && (forall c :: 0 <= c < b ==> Count(rows, b) < Count(rows, c))
  }

  lemma FirstLeastIsUnique(rows: Rows, total: int, a: int, b: int)
    requires IsFirstLeast(rows, total, a) && IsFirstLeast(rows, total, b)
    ensures a == b
  {
    assert Count(rows, a) <= Count(rows, b) <= Count(rows, a);
  }

  /** The choice of the SQL engine, from the rows of `GROUP BY bucket`. The counter starts at the
      largest i64, the bucket at 1, and ties are broken explicitly. */
  method ChooseFromGroups(groups: map<int, nat>, ghost rows: Rows, total: int) returns (bucket: int)
    requires forall b :: Count(rows, b) == if b in groups then groups[b] else 0
    requires |rows| < I64_MAX
    ensures total > 0 ==> IsFirstLeast(rows, total, bucket)
    ensures total <= 0 ==> bucket == 0
  {
    var minCount := I64_MAX;
    bucket := 1;
    var b := 0;
    while b < total
      invariant b == 0 || 0 < b <= total
      invariant b == 0 ==> minCount == I64_MAX && bucket == 1
      invariant b > 0 ==> IsFirstLeast(rows, b, bucket) && minCount == Count(rows, bucket)
    {
      CountIsBounded(rows, b);
      var count := if b in groups then groups[b] else 0;
      if count < minCount {
        minCount, bucket := count, b;
      } else if count == minCount && b < bucket {
        bucket := b;
      }
      b := b + 1;
    }
    if minCount == I64_MAX {
      if b > 0 {
        CountIsBounded(rows, bucket);
      }
      return 0;
    }
  }

  const I64_MAX := 0x7FFF_FFFF_FFFF_FFFF

  lemma CountIsBounded(rows: Rows, b: int)
    ensures Count(rows, b) <= |rows|
  {
    SubsetSize(InBucket(rows, b), rows.Keys);
    assert |rows.Keys| == |rows|;
  }

  /** The in-memory engine. */
  class Table {
    var rows: Rows
    var devices: set<Device>

    constructor ()
      ensures rows == map[] && devices == {}
    {
      rows, devices := map[], {};
    }

    /** InMemoryDB::get_bucket_with_less_devices: count, take the minimum, find its position. */
    method ChooseBucket(total: nat) returns (bucket: int)
      ensures total > 0 ==> IsFirstLeast(rows, total, bucket)
      ensures total == 0 ==> bucket == 0
    {
      var counts := CountAll(total);
      if total == 0 {
        return 0;
      }
      var min := counts[0];
      for c := 0 to total
        invariant exists i :: 0 <= i < total && counts[i] == min
        invariant forall i :: 0 <= i < c ==> min <= counts[i]
      {
        if counts[c] < min {
          min := counts[c];
        }
      }
      bucket := 0;
      while counts[bucket] != min
        invariant 0 <= bucket < total
        invariant forall i :: 0 <= i < bucket ==> counts[i] != min
        invariant exists i :: bucket <= i < total && counts[i] == min
        decreases total - bucket
      {
        bucket := bucket + 1;
      }
      assert forall c :: 0 <= c < total ==> Count(rows, c) == counts[c];
    }

    /** The counting loop; rows are visited in any order, numbers outside the range are ignored. */
    method CountAll(total: nat) returns (counts: seq<nat>)
      ensures |counts| == total && forall c :: 0 <= c < total ==> counts[c] == Count(rows, c)
    {
      counts := seq(total, _ => 0);
      forall c ensures CountAmong(rows, {}, c) == 0 {
        assert Among(rows, {}, c) == {};
      }
      var left := rows.Keys;
      ghost var seen: set<Device> := {};
      while left != {}
        invariant left <= rows.Keys && seen == rows.Keys - left
        invariant |counts| == total
        invariant forall c :: 0 <= c < total ==> counts[c] == CountAmong(rows, seen, c)
        decreases |left|
      {
        var d :| d in left;
        var b := rows[d].bucket;
        forall c | 0 <= c < total
          ensures CountAmong(rows, seen + {d}, c) == CountAmong(rows, seen, c) + if b == c then 1 else 0
        {
          CountOneMore(rows, seen, d, c);
        }
        if 0 <= b < total {
          counts := counts[b := counts[b] + 1];
        }
        left, seen := left - {d}, seen + {d};
      }
      assert seen == rows.Keys;
      forall c | 0 <= c < total ensures counts[c] == Count(rows, c) {
        assert Among(rows, seen, c) == InBucket(rows, c);
      }
    }

    method AddDevice(d: Device)
      modifies this
      ensures rows == old(rows) && devices == old(devices) + {d}
    {
      devices := devices + {d};
    }

    method AddToBucket(d: Device, bucket: int, n: Node)
      modifies this
      ensures rows == old(rows)[d := Row(bucket, n)] && devices == old(devices)
    {
      rows := rows[d := Row(bucket, n)];
    }

    method SetOwner(d: Device, n: Node)
      modifies this
      ensures rows == WithOwner(old(rows), d, n) && devices == old(devices)
    {
      if d in rows {
        rows := rows[d := rows[d].(owner := n)];
      }
    }

    /** get_devices_by_owner, in any order. */
    method DevicesByOwner(n: Node) returns (s: seq<Device>)
      ensures Lists(s, OwnedBy(rows, n))
    {
      s := ListSet(set d | d in rows && rows[d].owner == n);
    }
  }

  /** An unordered collection, listed in some order. */
  method ListSet(devices: set<Device>) returns (s: seq<Device>)
    ensures Lists(s, devices)
  {
    s := [];
    var left := devices;
    while left != {}
      invariant left <= devices
      invariant Lists(s, devices - left)
      decreases |left|
    {
      var d :| d in left;
      s := s + [d];
      left := left - {d};
    }
  }

  /** Both engines choose the same bucket for the same rows. */
  method ChooseInBothEngines(table: Table, groups: map<int, nat>, total: nat) returns (inMemory: int, sql: int)
    requires forall b :: Count(table.rows, b) == if b in groups then groups[b] else 0
    requires |table.rows| < I64_MAX
    ensures inMemory == sql
  {
    inMemory := table.ChooseBucket(total);
    sql := ChooseFromGroups(groups, table.rows, total);
    if total > 0 {
      FirstLeastIsUnique(table.rows, total, inMemory, sql);
    }
  }

  // ----- Round robin -----

  lemma CountAfterAdd(rows: Rows, d: Device, b: int, n: Node, c: int)
    requires d !in rows
    ensures Count(rows[d := Row(b, n)], c) == Count(rows, c) + if b == c then 1 else 0
  {
    assert InBucket(rows[d := Row(b, n)], c) == InBucket(rows, c) + if b == c then {d} else {};
  }

  /** k devices spread round robin: the first k mod total buckets have one more than the rest. */
  ghost predicate Spread(rows: Rows, total: nat, full: nat, extra: nat) {
    extra < total && forall c :: 0 <= c < total ==> Count(rows, c) == full + if c < extra then 1 else 0
  }

  lemma SpreadChoice(rows: Rows, total: nat, full: nat, extra: nat, b: int)
    requires Spread(rows, total, full, extra) && IsFirstLeast(rows, total, b)
    ensures b == extra
  {
    assert Count(rows, extra) == full;
  }

  lemma SpreadStep(rows: Rows, total: nat, full: nat, extra: nat, d: Device, n: Node)
    requires Spread(rows, total, full, extra) && d !in rows
    ensures var next := rows[d := Row(extra, n)];
            if extra + 1 == total then Spread(next, total, full + 1, 0) else Spread(next, total, full, extra + 1)
  {
    var next := rows[d := Row(extra, n)];
    forall c | 0 <= c < total ensures Count(next, c) == Count(rows, c) + if extra == c then 1 else 0 {
      CountAfterAdd(rows, d, extra, n, c);
    }
  }

  /** Registering distinct devices into an empty table: the i-th one (from zero) lands in bucket
      i mod total, and no two buckets ever differ by more than one device. */
  method RegisterAll(table: Table, ids: seq<Device>, total: nat, n: Node)
    requires table.rows == map[] && NoDuplicates(ids) && total > 0
    modifies table
    ensures table.rows.Keys == (set d | d in ids)
    ensures forall i :: 0 <= i < |ids| ==> table.rows[ids[i]] == Row(i % total, n)
    ensures forall a, b :: 0 <= a < total && 0 <= b < total ==> Count(table.rows, a) <= Count(table.rows, b) + 1
  {
    ghost var full := 0;
    EmptyCounts(total);
    var i := 0;
    while i < |ids|
      invariant 0 <= i <= |ids|
      invariant Spread(table.rows, total, full, i % total)
      invariant table.rows.Keys == (set d | d in ids[..i])
      invariant forall j :: 0 <= j < i ==> ids[j] in table.rows && table.rows[ids[j]] == Row(j % total, n)
    {
      var b := table.ChooseBucket(total);
      SpreadChoice(table.rows, total, full, i % total, b);
      assert ids[i] !in ids[..i];
      SpreadStep(table.rows, total, full, i % total, ids[i], n);
      NextRemainder(i, total);
      if i % total + 1 == total {
        full := full + 1;
      }
      table.AddToBucket(ids[i], b, n);
      assert ids[..i + 1] == ids[..i] + [ids[i]];
      i := i + 1;
    }
    assert ids[..|ids|] == ids;
  }

  lemma EmptyCounts(total: nat)
    requires total > 0
    ensures Spread(map[], total, 0, 0 % total)
  {
    forall c ensures Count(map[], c) == 0 {
      assert InBucket(map[], c) == {};
    }
  }
}

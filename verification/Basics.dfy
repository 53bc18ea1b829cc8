/** Identifiers, and the small arithmetic and sequence facts that several modules need. */
module Basics {

  type Node = nat
  type Device = nat

  /** A node and the number of devices it last reported. */
  datatype Peer = Peer(node: Node, count: nat)

  function Nodes(peers: seq<Peer>): (s: seq<Node>)
    ensures |s| == |peers| && forall i :: 0 <= i < |s| ==> s[i] == peers[i].node
  {
    seq(|peers|, i requires 0 <= i < |peers| => peers[i].node)
  }

  predicate NoDuplicates<T(==)>(s: seq<T>) {
    forall i, j :: 0 <= i < j < |s| ==> s[i] != s[j]
  }

  function Elements<T(==)>(s: seq<T>): set<T> { set x | x in s }

  lemma ElementsStep<T>(s: seq<T>, i: nat)
    requires i < |s|
    ensures Elements(s[..i + 1]) == Elements(s[..i]) + {s[i]}
    ensures Elements(s[..|s|]) == Elements(s)
  {
    assert s[..i + 1] == s[..i] + [s[i]];
    assert s[..|s|] == s;
  }

  lemma {:induction false} SubsetSize<T>(a: set<T>, b: set<T>)
    requires a <= b
    ensures |a| <= |b|
    decreases |a|
  {
    if a != {} {
      var x :| x in a;
      SubsetSize(a - {x}, b - {x});
    }
  }

  // ----- Quotients and remainders -----

  /** Rust's `usize::div_ceil`. */
  function DivCeil(n: nat, m: nat): nat
    requires m > 0
  {
    if n == 0 then 0 else if n <= m then 1 else 1 + DivCeil(n - m, m)
  }

  /** The rounded-up quotient is the least q with q * m >= n. */
  lemma {:induction false} DivCeilBounds(n: nat, m: nat)
    requires m > 0
    ensures n <= DivCeil(n, m) * m < n + m
    ensures n > 0 ==> DivCeil(n, m) > 0
  {
    if n > m {
      DivCeilBounds(n - m, m);
      assert (DivCeil(n - m, m) + 1) * m == DivCeil(n - m, m) * m + m;
    }
  }

  lemma MulGap(i: nat, j: nat, k: nat)
    requires i < j
    ensures i * k + k <= j * k
  {
    assert (j - i - 1) * k >= 0;
    assert j * k == i * k + k + (j - i - 1) * k;
  }

  lemma NextRemainder(i: nat, total: nat)
    requires total > 0
    ensures i % total + 1 == total ==> (i + 1) % total == 0
    ensures i % total + 1 < total ==> (i + 1) % total == i % total + 1
  {
    var q, r := i / total, i % total;
    assert i == total * q + r;
    if r + 1 == total {
      assert i + 1 == total * (q + 1);
      ModOf(q + 1, total, 0, i + 1);
    } else {
      ModOf(q, total, r + 1, i + 1);
    }
  }

  lemma ModOf(q: nat, total: nat, r: nat, x: nat)
    requires r < total && x == total * q + r
    ensures x % total == r
  {
    assert x == total * (x / total) + x % total;
    QuotientIsUnique(total, q, r, x / total, x % total);
  }

  lemma QuotientIsUnique(total: nat, q: nat, r: nat, q': nat, r': nat)
    requires r < total && r' < total && total * q + r == total * q' + r'
    ensures r == r'
  {
    if q < q' {
      MulGap(q, q', total);
    } else if q' < q {
      MulGap(q', q, total);
    }
  }

  // ----- Going round a list -----

  function TargetOf(targets: seq<Node>, i: nat): Node
    requires targets != []
  {
    targets[i % |targets|]
  }

  lemma TargetBeforeWrap(targets: seq<Node>, i: nat)
    requires i < |targets|
    ensures TargetOf(targets, i) == targets[i]
  {
    assert i % |targets| == i;
  }

  // ----- Lists of lists -----

  function Flatten<T>(c: seq<seq<T>>): seq<T> {
    if c == [] then [] else c[0] + Flatten(c[1..])
  }

  lemma {:induction false} FlattenConcat<T>(a: seq<seq<T>>, b: seq<seq<T>>)
    ensures Flatten(a + b) == Flatten(a) + Flatten(b)
    decreases |a|
  {
    if a == [] {
      assert a + b == b;
    } else {
      assert (a + b)[1..] == a[1..] + b;
      FlattenConcat(a[1..], b);
    }
  }

  /** List i lies in the flattened list after all the lists before it. */
  lemma FlattenAt<T>(c: seq<seq<T>>, i: nat)
    requires i < |c|
    ensures var pos := |Flatten(c[..i])|;
            pos + |c[i]| <= |Flatten(c)| && Flatten(c)[pos..pos + |c[i]|] == c[i]
  {
    assert c == c[..i] + ([c[i]] + c[i + 1..]);
    FlattenConcat(c[..i], [c[i]] + c[i + 1..]);
    assert ([c[i]] + c[i + 1..])[1..] == c[i + 1..];
  }
}

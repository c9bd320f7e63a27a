/** The byte vector: checked multiplication, growth, and intersection by merging. */
module Vectors {
  import opened Basics

  const W32: int := 0x1_0000_0000
  const W64: int := 0x1_0000_0000_0000_0000

  // ----- umult64

  lemma Distribute(ahi: int, alo: int, bhi: int, blo: int)
    ensures (ahi * W32 + alo) * (bhi * W32 + blo)
         == ahi * bhi * W64 + (ahi * blo + alo * bhi) * W32 + alo * blo
  {
  }

  lemma MulMonotone(x: int, y: int, p: int, q: int)
    requires 0 <= x <= p && 0 <= y <= q
    ensures 0 <= x * y <= p * q
  {
    assert x * y <= p * y;
    assert p * y <= p * q;
  }

  lemma OneSide(ahi: int, alo: int, bhi: int, blo: int)
    requires ahi == 0 || bhi == 0
    ensures ahi * bhi == 0 && (ahi * blo == 0 || alo * bhi == 0)
  {
  }

  /** The portable umult64, on 64-bit words with 32-bit halves: the product, if it fits. */
  method Umult64(a: int, b: int) returns (ok: bool, c: int)
    requires 0 <= a < W64 && 0 <= b < W64
    ensures ok <==> a * b < W64
    ensures ok ==> c == a * b
  {
    c := 0;
    var ahi, alo := a / W32, a % W32;
    var bhi, blo := b / W32, b % W32;
    Distribute(ahi, alo, bhi, blo);
    MulMonotone(alo, blo, W32 - 1, W32 - 1);
    if ahi != 0 && bhi != 0 {
      MulMonotone(1, 1, ahi, bhi);
      MulMonotone(0, 0, ahi, blo);
      MulMonotone(0, 0, alo, bhi);
      return false, c;
    }
    MulMonotone(ahi, blo, W32 - 1, W32 - 1);
    MulMonotone(alo, bhi, W32 - 1, W32 - 1);
    OneSide(ahi, alo, bhi, blo);
    var a' := (ahi * blo + alo * bhi) % W64;
    assert a' == ahi * blo + alo * bhi;
    if a' > 0xffff_ffff {
      return false, c;
    }
    var x := alo * blo;
    var sum := (x + a' * W32) % W64;
    if sum < x {
      return false, c;
    }
    return true, sum;
  }

  // ----- vector_intersection

  /** Elements of one size, compared as memcmp does. */
  type Elem = seq<Byte>

  function Memcmp(a: Elem, b: Elem): int
    requires |a| == |b|
  {
    if a == [] then 0 else if a[0] != b[0] then a[0] - b[0] else Memcmp(a[1..], b[1..])
  }

  ghost predicate Sized(xs: seq<Elem>, elsz: nat) {
    forall i :: 0 <= i < |xs| ==> |xs[i]| == elsz
  }

  ghost predicate Sorted(xs: seq<Elem>, elsz: nat)
    requires Sized(xs, elsz)
  {
    forall i, j :: 0 <= i < j < |xs| ==> Memcmp(xs[i], xs[j]) <= 0
  }

  lemma {:induction false} MemcmpOrder(a: Elem, b: Elem, c: Elem)
    requires |a| == |b| == |c|
    ensures Memcmp(a, b) == 0 <==> a == b
    ensures Memcmp(a, b) == -Memcmp(b, a)
    ensures Memcmp(a, b) <= 0 && Memcmp(b, c) <= 0 ==> Memcmp(a, c) <= 0
    ensures Memcmp(a, b) < 0 && Memcmp(b, c) <= 0 ==> Memcmp(a, c) < 0
  {
    if a != [] {
      MemcmpOrder(a[1..], b[1..], c[1..]);
      assert a == [a[0]] + a[1..] && b == [b[0]] + b[1..];
    }
  }

  /** The first byte in which two elements differ decides, the smaller one coming first. */
  lemma {:induction false} FirstDifference(a: Elem, b: Elem, k: nat)
    requires |a| == |b| && k < |a| && a[k] < b[k] && forall j :: 0 <= j < k ==> a[j] == b[j]
    ensures Memcmp(a, b) < 0 < Memcmp(b, a)
  {
    if k > 0 {
      FirstDifference(a[1..], b[1..], k - 1);
    }
  }

  /** What the merge loop computes. */
  function Merge(a: seq<Elem>, b: seq<Elem>, elsz: nat): seq<Elem>
    requires Sized(a, elsz) && Sized(b, elsz)
    decreases |a| + |b|
  {
    if a == [] || b == [] then []
    else if Memcmp(a[0], b[0]) < 0 then Merge(a[1..], b, elsz)
    else if Memcmp(a[0], b[0]) > 0 then Merge(a, b[1..], elsz)
    else [a[0]] + Merge(a[1..], b[1..], elsz)
  }

  /** An element below all of b does not occur in it. */
  lemma BelowAll(x: Elem, b: seq<Elem>, elsz: nat)
    requires Sized(b, elsz) && |x| == elsz && Sorted(b, elsz) && b != [] && Memcmp(x, b[0]) < 0
    ensures x !in b
  {
    if x in b {
      var i :| 0 <= i < |b| && b[i] == x;
      MemcmpOrder(x, b[0], b[i]);
      MemcmpOrder(x, x, x);
    }
  }

  lemma HeadAlone(a: seq<Elem>, b: seq<Elem>)
    requires a != [] && a[0] !in b
    ensures multiset(a) * multiset(b) == multiset(a[1..]) * multiset(b)
    ensures multiset(b) * multiset(a) == multiset(b) * multiset(a[1..])
  {
    assert a == [a[0]] + a[1..];
  }

  lemma HeadInBoth(a: seq<Elem>, b: seq<Elem>)
    requires a != [] && b != [] && a[0] == b[0]
    ensures multiset(a) * multiset(b) == multiset{a[0]} + multiset(a[1..]) * multiset(b[1..])
  {
    assert a == [a[0]] + a[1..] && b == [b[0]] + b[1..];
  }

  /** On sorted inputs the merge is, as a multiset, the intersection. */
  lemma {:induction false} MergeIsIntersection(a: seq<Elem>, b: seq<Elem>, elsz: nat)
    requires Sized(a, elsz) && Sized(b, elsz) && Sorted(a, elsz) && Sorted(b, elsz)
    ensures multiset(Merge(a, b, elsz)) == multiset(a) * multiset(b)
    decreases |a| + |b|
  {
    hide Memcmp;
    if a != [] && b != [] {
      var x, y := a[0], b[0];
      MemcmpOrder(x, y, y);
      if Memcmp(x, y) < 0 {
        BelowAll(x, b, elsz);
        HeadAlone(a, b);
        MergeIsIntersection(a[1..], b, elsz);
      } else if Memcmp(x, y) > 0 {
        BelowAll(y, a, elsz);
        HeadAlone(b, a);
        MergeIsIntersection(a, b[1..], elsz);
      } else {
        HeadInBoth(a, b);
        MergeIsIntersection(a[1..], b[1..], elsz);
      }
    }
  }

  /** The merge keeps the order of a: it is sorted, and holds nothing that is not in a. */
  lemma {:induction false} MergeIsSorted(a: seq<Elem>, b: seq<Elem>, elsz: nat)
    requires Sized(a, elsz) && Sized(b, elsz) && Sorted(a, elsz)
    ensures forall x :: x in Merge(a, b, elsz) ==> x in a
    ensures Sized(Merge(a, b, elsz), elsz) && Sorted(Merge(a, b, elsz), elsz)
    decreases |a| + |b|
  {
    if a != [] && b != [] {
      if Memcmp(a[0], b[0]) < 0 {
        MergeIsSorted(a[1..], b, elsz);
      } else if Memcmp(a[0], b[0]) > 0 {
        MergeIsSorted(a, b[1..], elsz);
      } else {
        MergeIsSorted(a[1..], b[1..], elsz);
        var rest := Merge(a[1..], b[1..], elsz);
        forall i | 0 <= i < |rest| ensures |rest[i]| == elsz && Memcmp(a[0], rest[i]) <= 0 {
          assert rest[i] in a[1..];
          var k :| 0 <= k < |a| - 1 && a[1..][k] == rest[i];
          assert Memcmp(a[0], a[k+1]) <= 0;
        }
      }
    }
  }

  /** Sorted lists with the same elements start with the same one. */
  lemma SameHead(xs: seq<Elem>, ys: seq<Elem>, elsz: nat)
    requires Sized(xs, elsz) && Sized(ys, elsz) && Sorted(xs, elsz) && Sorted(ys, elsz)
    requires xs != [] && ys != [] && ys[0] in xs && xs[0] in ys
    ensures xs[0] == ys[0]
  {
    hide Memcmp;
    var x, y := xs[0], ys[0];
    var i :| 0 <= i < |ys| && ys[i] == x;
    var j :| 0 <= j < |xs| && xs[j] == y;
    MemcmpOrder(x, y, y);
    MemcmpOrder(x, x, x);
    MemcmpOrder(y, y, y);
  }

  /** A sorted list is determined by its multiset. */
  lemma {:induction false} SortedByMultiset(xs: seq<Elem>, ys: seq<Elem>, elsz: nat)
    requires Sized(xs, elsz) && Sized(ys, elsz) && Sorted(xs, elsz) && Sorted(ys, elsz)
    requires multiset(xs) == multiset(ys)
    ensures xs == ys
  {
    hide Memcmp;
    if xs == [] {
      assert |multiset(ys)| == 0;
    } else {
      assert |multiset(ys)| == |xs|;
      assert xs[0] in multiset(ys) && ys[0] in multiset(xs);
      SameHead(xs, ys, elsz);
      Tails(xs, ys);
      SortedByMultiset(xs[1..], ys[1..], elsz);
    }
  }

  lemma Tails(xs: seq<Elem>, ys: seq<Elem>)
    requires xs != [] && ys != [] && xs[0] == ys[0] && multiset(xs) == multiset(ys)
    ensures multiset(xs[1..]) == multiset(ys[1..])
    ensures xs[1..] == ys[1..] ==> xs == ys
  {
    assert xs == [xs[0]] + xs[1..] && ys == [ys[0]] + ys[1..];
    assert multiset(xs[1..]) == multiset(xs) - multiset{xs[0]};
    assert multiset(ys[1..]) == multiset(ys) - multiset{ys[0]};
  }

  /** vector_intersection. beyond is whatever memcmp returns once an index has left its array. */
  method Intersection(a: seq<Elem>, b: seq<Elem>, elsz: nat, beyond: (nat, nat) -> int) returns (out: seq<Elem>)
    requires Sized(a, elsz) && Sized(b, elsz)
    ensures out == Merge(a, b, elsz)
  {
    var j, k := 0, 0;
    out := [];
    for i := 0 to |a| + |b|
      invariant j <= |a| && k <= |b|
      invariant i <= j + k || j == |a| || k == |b|
      invariant out + Merge(a[j..], b[k..], elsz) == Merge(a, b, elsz)
    {
      var r := if j < |a| && k < |b| then Memcmp(a[j], b[k]) else beyond(j, k);
      if r < 0 && j < |a| {
        j := j + 1;
      } else if r > 0 && k < |b| {
        k := k + 1;
      } else if r == 0 && j < |a| && k < |b| {
        out := out + [a[j]];
        j, k := j + 1, k + 1;
      }
    }
  }
}

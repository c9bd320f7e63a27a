/** The recursive preorder characterised without recursion: it is the one list that holds exactly
    the simple paths from the root, in strictly increasing order. */
module PreorderTheory {

  import opened ObjectGraph
  import opened SimplePaths

  /** A nonempty simple path that starts at root. */
  ghost predicate SimpleFrom(h: Heap, root: ObjId, p: Stack) {
    p != [] && p[0].obj == root && Simple(h, p)
  }

  /** A nonempty simple path starting at property >= i of o, on top of fs. */
  ghost predicate Extends(h: Heap, fs: Stack, o: ObjId, i: nat, p: Stack) {
    && Simple(h, p) && |fs| < |p| && p[..|fs|] == fs
    && p[|fs|].obj == o && i <= p[|fs|].idx
  }

  /** a is a proper prefix of b (k == |a|), or first differs from b by a smaller property index. */
  ghost predicate DivergeAt(a: Stack, b: Stack, k: nat) {
    && k <= |a| && k < |b| && a[..k] == b[..k]
    && (k < |a| ==> a[k].obj == b[k].obj && a[k].idx < b[k].idx)
  }

  ghost predicate Before(a: Stack, b: Stack) {
    exists k :: DivergeAt(a, b, k)
  }

  ghost predicate Sorted(xs: seq<Stack>) {
    forall i, j :: 0 <= i < j < |xs| ==> Before(xs[i], xs[j])
  }

  /** Every prefix of a simple path is simple, and the next object may be put on top of it. */
  lemma {:induction false} SimplePrefix(h: Heap, p: Stack, n: nat)
    requires Simple(h, p) && n < |p|
    ensures Enterable(h, p[..n], p[n].obj) && InRange(h, p[n])
  {
    if n < |p| - 1 {
      SimplePrefix(h, Init(p), n);
      assert Init(p)[..n] == p[..n];
    }
  }

  lemma {:induction false} PreorderSound(h: Heap, fs: Stack, o: ObjId, i: nat, p: Stack)
    requires ValidHeap(h) && Enterable(h, fs, o)
    requires p in Preorder(h, fs, o, i)
    ensures Extends(h, fs, o, i, p)
    decreases h.Keys - Objs(fs), Len(h, o) - i, 1
  {
    SimplePush(h, fs, o, i);
    var here := fs + [Frame(o, i)];
    if p in Below(h, here) {
      BelowSound(h, here, p);
      assert p[..|fs|] == p[..|here|][..|fs|];
    } else if p != here {
      PreorderSound(h, fs, o, i + 1, p);
    }
  }

  lemma {:induction false} BelowSound(h: Heap, fs: Stack, p: Stack)
    requires ValidHeap(h) && fs != [] && Simple(h, fs)
    requires p in Below(h, fs)
    ensures Simple(h, p) && |fs| < |p| && p[..|fs|] == fs
    decreases h.Keys - Objs(Init(fs)), Len(h, Top(fs).obj) - Top(fs).idx, 0
  {
    PreorderSound(h, fs, ValueAt(h, Top(fs)).id, 0, p);
  }

  lemma {:induction false} PreorderComplete(h: Heap, fs: Stack, o: ObjId, i: nat, p: Stack)
    requires ValidHeap(h) && Enterable(h, fs, o)
    requires Extends(h, fs, o, i, p)
    ensures p in Preorder(h, fs, o, i)
    decreases h.Keys - Objs(fs), Len(h, o) - i, 1
  {
    SimplePrefix(h, p, |fs|);
    SimplePush(h, fs, o, i);
    var here := fs + [Frame(o, i)];
    if p[|fs|].idx > i {
      PreorderComplete(h, fs, o, i + 1, p);
    } else if |p| == |here| {
      assert p == here;
    } else {
      assert p[..|here|] == here;
      BelowComplete(h, here, p);
    }
  }

  lemma {:induction false} BelowComplete(h: Heap, fs: Stack, p: Stack)
    requires ValidHeap(h) && fs != [] && Simple(h, fs)
    requires Simple(h, p) && |fs| < |p| && p[..|fs|] == fs
    ensures p in Below(h, fs)
    decreases h.Keys - Objs(Init(fs)), Len(h, Top(fs).obj) - Top(fs).idx, 0
  {
    var o := p[|fs|].obj;
    SimplePrefix(h, p, |fs|);
    PreorderComplete(h, fs, o, 0, p);
  }

  lemma {:induction false} PreorderSorted(h: Heap, fs: Stack, o: ObjId, i: nat)
    requires ValidHeap(h) && Enterable(h, fs, o)
    ensures Sorted(Preorder(h, fs, o, i))
    decreases h.Keys - Objs(fs), Len(h, o) - i, 1
  {
    if i < Len(h, o) {
      SimplePush(h, fs, o, i);
      var here := fs + [Frame(o, i)];
      var below, later := Below(h, here), Preorder(h, fs, o, i + 1);
      BelowSorted(h, here);
      PreorderSorted(h, fs, o, i + 1);
      forall p | p in below ensures Before(here, p) {
        BelowSound(h, here, p);
        assert DivergeAt(here, p, |here|);
      }
      forall p, q | p in [here] + below && q in later ensures Before(p, q) {
        EarlierBranch(h, fs, o, i, p, q);
      }
      SortedConcat([here], below);
      SortedConcat([here] + below, later);
    }
  }

  lemma EarlierBranch(h: Heap, fs: Stack, o: ObjId, i: nat, p: Stack, q: Stack)
    requires ValidHeap(h) && Enterable(h, fs, o) && i < Len(h, o)
    requires Simple(h, fs + [Frame(o, i)])
    requires p in [fs + [Frame(o, i)]] + Below(h, fs + [Frame(o, i)])
    requires q in Preorder(h, fs, o, i + 1)
    ensures Before(p, q)
  {
    var here := fs + [Frame(o, i)];
    PreorderSound(h, fs, o, i + 1, q);
    if p != here { BelowSound(h, here, p); }
    assert p[..|here|] == here;
    assert p[..|fs|] == here[..|fs|] == fs && p[|fs|] == here[|fs|];
    assert DivergeAt(p, q, |fs|);
  }

  lemma SortedConcat(xs: seq<Stack>, ys: seq<Stack>)
    requires Sorted(xs) && Sorted(ys)
    requires forall p, q :: p in xs && q in ys ==> Before(p, q)
    ensures Sorted(xs + ys)
  {
  }

  lemma {:induction false} BelowSorted(h: Heap, fs: Stack)
    requires ValidHeap(h) && fs != [] && Simple(h, fs)
    ensures Sorted(Below(h, fs))
    decreases h.Keys - Objs(Init(fs)), Len(h, Top(fs).obj) - Top(fs).idx, 0
  {
    var v := ValueAt(h, Top(fs));
    if v.Object? && v.id !in Objs(fs) {
      PreorderSorted(h, fs, v.id, 0);
    }
  }

  lemma BeforeTransitive(a: Stack, b: Stack, c: Stack)
    requires Before(a, b) && Before(b, c)
    ensures Before(a, c)
  {
    var k: nat :| DivergeAt(a, b, k);
    var l: nat :| DivergeAt(b, c, l);
    var m := if k < l then k else l;
    assert a[..m] == a[..k][..m] == b[..k][..m] == b[..m] == b[..l][..m] == c[..l][..m] == c[..m];
    if k < l {
      assert b[k] == b[..l][k] == c[..l][k] == c[k];
    } else if l < k {
      assert a[l] == a[..k][l] == b[..k][l] == b[l];
    }
    assert DivergeAt(a, c, m);
  }

  lemma BeforeIrreflexive(a: Stack)
    ensures !Before(a, a)
  {
  }

  lemma TailElements(xs: seq<Stack>)
    requires Sorted(xs) && xs != []
    ensures forall p :: p in xs[1..] <==> p in xs && p != xs[0]
  {
    forall p | p in xs && p != xs[0] ensures p in xs[1..] {
      var i :| 0 <= i < |xs| && xs[i] == p;
      assert xs[1..][i-1] == p;
    }
    forall p | p in xs[1..] ensures p != xs[0] {
      var i :| 0 <= i < |xs| - 1 && xs[1..][i] == p;
      assert Before(xs[0], xs[i+1]);
      BeforeIrreflexive(xs[0]);
    }
  }

  /** Two strictly increasing lists with the same elements are the same list. */
  lemma {:induction false} SortedUnique(xs: seq<Stack>, ys: seq<Stack>)
    requires Sorted(xs) && Sorted(ys)
    requires forall p :: p in xs <==> p in ys
    ensures xs == ys
  {
    assert |ys| > 0 ==> ys[0] in xs;
    if xs != [] {
      assert xs[0] in ys;
      assert ys != [] && ys[0] in xs;
      if xs[0] != ys[0] {
        assert Before(xs[0], ys[0]) && Before(ys[0], xs[0]);
        BeforeTransitive(xs[0], ys[0], xs[0]);
        BeforeIrreflexive(xs[0]);
      }
      TailElements(xs);
      TailElements(ys);
      SortedUnique(xs[1..], ys[1..]);
    }
  }

  /** The walk order, as an if-and-only-if: a list is the preorder from root exactly when it holds
      the nonempty simple paths from root and nothing else, strictly increasing. */
  lemma PreorderIsTheSimplePaths(h: Heap, root: ObjId, xs: seq<Stack>)
    requires ValidHeap(h) && root in h
    ensures xs == Preorder(h, [], root, 0) <==> Sorted(xs) && HoldsExactlyThePaths(h, root, xs)
  {
    var w := Preorder(h, [], root, 0);
    PreorderSorted(h, [], root, 0);
    forall p ensures p in w <==> PathFrom(h, root, p) {
      SimpleIsSimplePath(h, p);
      if p in w { PreorderSound(h, [], root, 0, p); }
      if PathFrom(h, root, p) { PreorderComplete(h, [], root, 0, p); }
    }
    if Sorted(xs) && HoldsExactlyThePaths(h, root, xs) {
      SortedUnique(xs, w);
    }
  }

  /** A nonempty path from root whose objects are pairwise distinct. */
  ghost predicate PathFrom(h: Heap, root: ObjId, p: Stack) {
    p != [] && p[0].obj == root && SimplePath(h, p)
  }

  ghost predicate HoldsExactlyThePaths(h: Heap, root: ObjId, xs: seq<Stack>) {
    forall p :: p in xs <==> PathFrom(h, root, p)
  }

  /** No key path is visited twice: simple paths from one root are told apart by their keys. */
  lemma {:induction false} KeyPathInjective(h: Heap, root: ObjId, p: Stack, q: Stack)
    requires ValidHeap(h) && SimpleFrom(h, root, p) && SimpleFrom(h, root, q)
    requires KeyPath(h, p) == KeyPath(h, q)
    ensures p == q
  {
    var ks := KeyPath(h, p);
    assert |p| == |ks| == |q|;
    assert KeyPath(h, Init(p)) == ks[..|ks|-1] == KeyPath(h, Init(q));
    assert KeyAt(h, Top(p)) == ks[|ks|-1] == KeyAt(h, Top(q));
    if |p| > 1 {
      KeyPathInjective(h, root, Init(p), Init(q));
    }
    assert Top(p).obj == Top(q).obj;
    assert p == Init(p) + [Top(p)] && q == Init(q) + [Top(q)];
  }

  /** A stack is never higher than the number of objects. */
  lemma HeightBound(h: Heap, p: Stack)
    requires Simple(h, p)
    ensures |p| <= |h|
  {
    ObjsCount(h, p);
    ObjsInHeap(h, p);
    SubsetSize(Objs(p), h.Keys);
  }

  lemma {:induction false} ObjsCount(h: Heap, p: Stack)
    requires Simple(h, p)
    ensures |Objs(p)| == |p|
  {
    if p != [] {
      ObjsCount(h, Init(p));
    }
  }

  lemma {:induction false} ObjsInHeap(h: Heap, p: Stack)
    requires Simple(h, p)
    ensures Objs(p) <= h.Keys
  {
    if p != [] {
      ObjsInHeap(h, Init(p));
    }
  }

  lemma {:induction false} SubsetSize(a: set<ObjId>, b: set<ObjId>)
    requires a <= b
    ensures |a| <= |b|
  {
    if a != {} {
      var x :| x in a;
      SubsetSize(a - {x}, b - {x});
    }
  }
}

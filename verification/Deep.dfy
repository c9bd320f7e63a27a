/** The drivers of the walk: select, find, forEach, pathOf, deepest and the iterator. */
module Deep {

  import opened Basics
  import opened ObjectGraph
  import opened SimplePaths
  import opened PreorderTheory
  import opened PropertyEnumeration
  import opened Dereference

  /** A visited value with its path, as js_deep_return hands them out. */
  datatype Hit = Hit(value: Value, path: seq<Key>)

  /** The predicate a caller passes in; a throwing one counts as false. */
  type Pred = (Value, Key) -> bool

  /** JS_ToInt64 on a key that is not an integer. */
  type ToInt = Key -> nat

  const MAXDEPTH_MASK: nat := 0xff_ffff

  /** property_enumeration_key: the keys of arrays are forced to integers. */
  function SpelledKey(h: Heap, conv: ToInt, f: Frame): Key {
    if !InRange(h, f) then NullAtom
    else
      var k := KeyAt(h, f);
      if h[f.obj].isArray && !k.Index? then Index(conv(k)) else k
  }

  function SpelledPath(h: Heap, conv: ToInt, fs: Stack): seq<Key> {
    seq(|fs|, i requires 0 <= i < |fs| => SpelledKey(h, conv, fs[i]))
  }

  function HitOf(h: Heap, conv: ToInt, fs: Stack): Hit {
    Hit(if fs != [] && InRange(h, Top(fs)) then ValueAt(h, Top(fs)) else Primitive(""),
        SpelledPath(h, conv, fs))
  }

  /** k is the key of frame f, but on arrays the number made of it if it is no integer. */
  ghost predicate Spells(h: Heap, conv: ToInt, f: Frame, k: Key)
    requires InRange(h, f)
  {
    if h[f.obj].isArray && !KeyAt(h, f).Index? then k == Index(conv(KeyAt(h, f))) else k == KeyAt(h, f)
  }

  /** x is what there is to say about the path p: its value, and the keys of all its frames. */
  ghost predicate Tells(h: Heap, conv: ToInt, p: Stack, x: Hit) {
    && p != [] && |x.path| == |p|
    && (forall i :: 0 <= i < |p| ==> InRange(h, p[i]) && Spells(h, conv, p[i], x.path[i]))
    && x.value == ValueAt(h, Top(p))
  }

  lemma HitTells(h: Heap, conv: ToInt, p: Stack, x: Hit)
    requires p != [] && forall i :: 0 <= i < |p| ==> InRange(h, p[i])
    ensures x == HitOf(h, conv, p) <==> Tells(h, conv, p, x)
  {
    var y := HitOf(h, conv, p);
    if Tells(h, conv, p, x) {
      assert forall i :: 0 <= i < |p| ==> Spells(h, conv, p[i], x.path[i]) && Spells(h, conv, p[i], y.path[i]);
      assert x.path == y.path;
    }
  }

  lemma PathTells(h: Heap, conv: ToInt, p: Stack)
    requires p != [] && Simple(h, p)
    ensures Tells(h, conv, p, Hit(ValueAt(h, Top(p)), SpelledPath(h, conv, p)))
  {
    SimpleIsSimplePath(h, p);
    HitTells(h, conv, p, HitOf(h, conv, p));
  }

  /** property_enumeration_path. */
  method EnumerationPath(h: Heap, conv: ToInt, frames: Stack) returns (path: seq<Key>)
    ensures path == SpelledPath(h, conv, frames)
  {
    path := [];
    for i := 0 to |frames|
      invariant path == SpelledPath(h, conv, frames[..i])
    {
      var key := SpelledKey(h, conv, frames[i]);
      path := path + [key];
    }
    assert frames[..|frames|] == frames;
  }

  /** js_deep_return: value and path. */
  method DeepReturn(h: Heap, conv: ToInt, frames: Stack) returns (hit: Hit)
    requires frames != [] && InRange(h, Top(frames))
    ensures hit == HitOf(h, conv, frames)
    ensures (forall i :: 0 <= i < |frames| ==> InRange(h, frames[i])) ==> Tells(h, conv, frames, hit)
  {
    var path := EnumerationPath(h, conv, frames);
    hit := Hit(ValueAt(h, Top(frames)), path);
  }

  /** The predicate is asked about the value and the key as it is handed out. */
  predicate Accepts(h: Heap, conv: ToInt, pred: Pred, fs: Stack) {
    fs != [] && InRange(h, Top(fs)) && pred(ValueAt(h, Top(fs)), SpelledKey(h, conv, Top(fs)))
  }

  /** The paths of ps that are no longer than d and accepted, in order. */
  ghost function Chosen(h: Heap, conv: ToInt, pred: Pred, d: nat, ps: seq<Stack>): seq<Stack> {
    if ps == [] then []
    else (if |ps[0]| <= d && Accepts(h, conv, pred, ps[0]) then [ps[0]] else []) + Chosen(h, conv, pred, d, ps[1..])
  }

  ghost function Hits(h: Heap, conv: ToInt, ps: seq<Stack>): seq<Hit> {
    seq(|ps|, i requires 0 <= i < |ps| => HitOf(h, conv, ps[i]))
  }

  /** What a search from root has to report. */
  ghost function Report(h: Heap, conv: ToInt, pred: Pred, d: nat, root: ObjId): seq<Hit>
    requires ValidHeap(h) && root in h
  {
    Hits(h, conv, Chosen(h, conv, pred, d, Preorder(h, [], root, 0)))
  }

  lemma {:induction false} ChosenConcat(h: Heap, conv: ToInt, pred: Pred, d: nat, ps: seq<Stack>, qs: seq<Stack>)
    ensures Chosen(h, conv, pred, d, ps + qs) == Chosen(h, conv, pred, d, ps) + Chosen(h, conv, pred, d, qs)
  {
    if ps == [] {
      assert ps + qs == qs;
    } else {
      assert (ps + qs)[1..] == ps[1..] + qs;
      ChosenConcat(h, conv, pred, d, ps[1..], qs);
    }
  }

  lemma {:induction false} ChosenNone(h: Heap, conv: ToInt, pred: Pred, d: nat, ps: seq<Stack>)
    requires forall p :: p in ps ==> |p| > d
    ensures Chosen(h, conv, pred, d, ps) == []
  {
    if ps != [] {
      assert ps[0] in ps;
      ChosenNone(h, conv, pred, d, ps[1..]);
    }
  }

  /** Skipping a subtree at the depth limit loses nothing a limited search would report. */
  lemma {:induction false} ChosenSkip(h: Heap, conv: ToInt, pred: Pred, d: nat, fs: Stack, rest: seq<Stack>)
    requires ValidHeap(h) && fs != [] && Simple(h, fs) && |fs| >= d
    ensures Chosen(h, conv, pred, d, [fs] + (Below(h, fs) + rest)) == Chosen(h, conv, pred, d, [fs] + rest)
  {
    forall p | p in Below(h, fs) ensures |p| > d {
      BelowSound(h, fs, p);
    }
    ChosenNone(h, conv, pred, d, Below(h, fs));
    ChosenConcat(h, conv, pred, d, Below(h, fs), rest);
    ChosenConcat(h, conv, pred, d, [fs], Below(h, fs) + rest);
    ChosenConcat(h, conv, pred, d, [fs], rest);
  }

  /** A limit of 0 in the flags means no limit but INT32_MAX. */
  function MaxDepth(flags: nat): (d: nat)
    ensures d >= 1
  {
    if flags % (MAXDEPTH_MASK + 1) == 0 then INT32_MAX else flags % (MAXDEPTH_MASK + 1)
  }

  lemma StartOfWalk(h: Heap, root: ObjId)
    requires ValidHeap(h) && root in h
    ensures Resting(h, [Frame(root, 0)]) && Todo(h, [Frame(root, 0)]) == Preorder(h, [], root, 0)
    ensures Len(h, root) > 0 ==> Simple(h, [Frame(root, 0)])
    ensures Len(h, root) == 0 ==> Preorder(h, [], root, 0) == []
  {
    assert Init([Frame(root, 0)]) == [];
  }

  /** What a search still has to report, the path it stands on included. */
  ghost function Pending(h: Heap, conv: ToInt, pred: Pred, d: nat, fs: Stack): seq<Hit>
    requires ValidHeap(h) && Resting(h, fs)
  {
    Hits(h, conv, Chosen(h, conv, pred, d, Todo(h, fs)))
  }

  lemma {:induction false} PendingStep(h: Heap, conv: ToInt, pred: Pred, d: nat, fs: Stack, gs: Stack)
    requires ValidHeap(h) && fs != [] && Resting(h, fs) && Resting(h, gs) && |fs| <= d
    requires Chosen(h, conv, pred, d, Todo(h, fs)) == Chosen(h, conv, pred, d, [fs] + Todo(h, gs))
    ensures Pending(h, conv, pred, d, fs) == Here(h, conv, pred, fs) + Pending(h, conv, pred, d, gs)
  {
    hide Todo, ValidHeap, Resting, Accepts, HitOf;
    ChosenConcat(h, conv, pred, d, [fs], Todo(h, gs));
    assert Chosen(h, conv, pred, d, [fs]) == if Accepts(h, conv, pred, fs) then [fs] else [];
  }

  /** The hit a search reports at fs, if it does. */
  ghost function Here(h: Heap, conv: ToInt, pred: Pred, fs: Stack): seq<Hit> {
    if Accepts(h, conv, pred, fs) then [HitOf(h, conv, fs)] else []
  }

  lemma HereIs(h: Heap, conv: ToInt, pred: Pred, fs: Stack)
    requires fs != [] && InRange(h, Top(fs))
    ensures Here(h, conv, pred, fs)
         == if pred(ValueAt(h, Top(fs)), SpelledKey(h, conv, Top(fs))) then [HitOf(h, conv, fs)] else []
  {
  }

  /** What a search that stands on fs and has dealt with it still has to report. */
  ghost function Later(h: Heap, conv: ToInt, pred: Pred, d: nat, fs: Stack): seq<Hit>
    requires ValidHeap(h)
  {
    if fs == [] || !Simple(h, fs) then []
    else Hits(h, conv, Chosen(h, conv, pred, d, Below(h, fs) + After(h, fs)))
  }

  lemma {:induction false} PendingSplit(h: Heap, conv: ToInt, pred: Pred, d: nat, fs: Stack)
    requires ValidHeap(h) && Simple(h, fs) && fs != [] && |fs| <= d
    ensures Resting(h, fs)
    ensures Pending(h, conv, pred, d, fs) == Here(h, conv, pred, fs) + Later(h, conv, pred, d, fs)
  {
    TodoSplit(h, fs);
    var later := Below(h, fs) + After(h, fs);
    ChosenConcat(h, conv, pred, d, [fs], later);
    assert Chosen(h, conv, pred, d, [fs]) == if Accepts(h, conv, pred, fs) then [fs] else [];
    HitsConcat(h, conv, Chosen(h, conv, pred, d, [fs]), Chosen(h, conv, pred, d, later));
    assert Hits(h, conv, Chosen(h, conv, pred, d, [fs])) == Here(h, conv, pred, fs);
  }

  lemma HitsConcat(h: Heap, conv: ToInt, ps: seq<Stack>, qs: seq<Stack>)
    ensures Hits(h, conv, ps + qs) == Hits(h, conv, ps) + Hits(h, conv, qs)
  {
  }

  lemma Cancel(a: seq<Hit>, b: seq<Hit>, c: seq<Hit>)
    requires a + b == a + c
    ensures b == c
  {
    assert b == (a + b)[|a|..] == (a + c)[|a|..] == c;
  }

  /** One turn of a depth-limited search: skip at the limit, recurse above it. */
  method Advance(walk: FrameVector, d: nat, ghost conv: ToInt, ghost pred: Pred) returns (it: bool)
    requires walk.Valid() && walk.frames != [] && |walk.frames| <= d
    modifies walk
    ensures walk.Valid() && Simple(walk.h, walk.frames) && |walk.frames| <= d && it == (walk.frames != [])
    ensures Resting(walk.h, walk.frames) && (!Simple(walk.h, old(walk.frames)) ==> walk.frames == [])
    ensures Simple(walk.h, old(walk.frames)) ==>
              && Resting(walk.h, old(walk.frames))
              && |Todo(walk.h, walk.frames)| < |Todo(walk.h, old(walk.frames))|
              && Pending(walk.h, conv, pred, d, old(walk.frames))
                 == Here(walk.h, conv, pred, old(walk.frames)) + Pending(walk.h, conv, pred, d, walk.frames)
              && Later(walk.h, conv, pred, d, old(walk.frames)) == Pending(walk.h, conv, pred, d, walk.frames)
  {
    ghost var fs := walk.frames;
    if |walk.frames| >= d {
      it := walk.Skip();
      if Simple(walk.h, fs) {
        ChosenSkip(walk.h, conv, pred, d, fs, Todo(walk.h, walk.frames));
      }
    } else {
      it := walk.Recurse();
    }
    if Simple(walk.h, fs) {
      PendingStep(walk.h, conv, pred, d, fs, walk.frames);
      PendingSplit(walk.h, conv, pred, d, fs);
      Cancel(Here(walk.h, conv, pred, fs), Later(walk.h, conv, pred, d, fs),
             Pending(walk.h, conv, pred, d, walk.frames));
    }
  }

  lemma Append(a: seq<Hit>, x: Hit, b: seq<Hit>)
    ensures a + ([x] + b) == (a + [x]) + b
  {
  }

  /** What a search is to report, without reference to the walk: of the simple paths from root of at most
      d keys, those whose value and last key, as handed out, pred accepts, each once, in increasing order;
      and of each its value and the keys of all its frames. */
  ghost predicate IsReport(h: Heap, conv: ToInt, pred: Pred, d: nat, root: ObjId, hits: seq<Hit>) {
    exists ps :: AreReported(h, conv, pred, d, root, ps) && EachTold(h, conv, ps, hits)
  }

  ghost predicate AreReported(h: Heap, conv: ToInt, pred: Pred, d: nat, root: ObjId, ps: seq<Stack>) {
    Sorted(ps) && forall p :: p in ps <==> Reported(h, conv, pred, d, root, p)
  }

  ghost predicate Reported(h: Heap, conv: ToInt, pred: Pred, d: nat, root: ObjId, p: Stack) {
    && PathFrom(h, root, p) && |p| <= d
    && forall k :: Spells(h, conv, Top(p), k) ==> pred(ValueAt(h, Top(p)), k)
  }

  ghost predicate EachTold(h: Heap, conv: ToInt, ps: seq<Stack>, hits: seq<Hit>) {
    |hits| == |ps| && forall k :: 0 <= k < |ps| ==> Tells(h, conv, ps[k], hits[k])
  }

  /** That is what the walk reports, and nothing else is. */
  lemma ReportIsExact(h: Heap, conv: ToInt, pred: Pred, d: nat, root: ObjId, hits: seq<Hit>)
    requires ValidHeap(h) && root in h
    ensures hits == Report(h, conv, pred, d, root) <==> IsReport(h, conv, pred, d, root, hits)
  {
    hide ValidHeap, Preorder, Chosen, Hits, AreReported, EachTold;
    var ps := Chosen(h, conv, pred, d, Preorder(h, [], root, 0));
    ChosenAreReported(h, conv, pred, d, root);
    HitsTell(h, conv, pred, d, root, ps, hits);
    if IsReport(h, conv, pred, d, root, hits) {
      var qs :| AreReported(h, conv, pred, d, root, qs) && EachTold(h, conv, qs, hits);
      OneList(h, conv, pred, d, root, ps, qs);
    }
  }

  lemma OneList(h: Heap, conv: ToInt, pred: Pred, d: nat, root: ObjId, ps: seq<Stack>, qs: seq<Stack>)
    requires AreReported(h, conv, pred, d, root, ps) && AreReported(h, conv, pred, d, root, qs)
    ensures ps == qs
  {
    hide Sorted, Reported;
    SortedUnique(ps, qs);
  }

  lemma HitsTell(h: Heap, conv: ToInt, pred: Pred, d: nat, root: ObjId, ps: seq<Stack>, hits: seq<Hit>)
    requires AreReported(h, conv, pred, d, root, ps)
    ensures hits == Hits(h, conv, ps) <==> EachTold(h, conv, ps, hits)
  {
    hide HitOf, Tells, Sorted;
    if |hits| == |ps| {
      forall k | 0 <= k < |ps| ensures hits[k] == HitOf(h, conv, ps[k]) <==> Tells(h, conv, ps[k], hits[k]) {
        assert ps[k] in ps && Reported(h, conv, pred, d, root, ps[k]);
        HitTells(h, conv, ps[k], hits[k]);
      }
      assert hits == Hits(h, conv, ps) <==> forall k :: 0 <= k < |ps| ==> hits[k] == HitOf(h, conv, ps[k]);
    }
  }

  lemma ChosenAreReported(h: Heap, conv: ToInt, pred: Pred, d: nat, root: ObjId)
    requires ValidHeap(h) && root in h
    ensures AreReported(h, conv, pred, d, root, Chosen(h, conv, pred, d, Preorder(h, [], root, 0)))
  {
    var w := Preorder(h, [], root, 0);
    PreorderIsTheSimplePaths(h, root, w);
    ChosenKeepsOrder(h, conv, pred, d, w);
    hide Preorder, Chosen, Sorted;
    forall p ensures PathFrom(h, root, p) && |p| <= d && Accepts(h, conv, pred, p)
                <==> Reported(h, conv, pred, d, root, p) {
      if PathFrom(h, root, p) {
        assert Spells(h, conv, Top(p), SpelledKey(h, conv, Top(p)));
      }
    }
  }

  lemma {:induction false} ChosenKeepsOrder(h: Heap, conv: ToInt, pred: Pred, d: nat, ps: seq<Stack>)
    requires Sorted(ps)
    ensures Sorted(Chosen(h, conv, pred, d, ps))
    ensures forall p :: p in Chosen(h, conv, pred, d, ps) <==> p in ps && |p| <= d && Accepts(h, conv, pred, p)
  {
    if ps != [] {
      ChosenKeepsOrder(h, conv, pred, d, ps[1..]);
      assert ps == [ps[0]] + ps[1..];
      forall q | q in ps[1..] ensures Before(ps[0], q) {
        var i :| 0 <= i < |ps| - 1 && ps[1..][i] == q;
        assert Before(ps[0], ps[i+1]);
      }
      var first := if |ps[0]| <= d && Accepts(h, conv, pred, ps[0]) then [ps[0]] else [];
      SortedConcat(first, Chosen(h, conv, pred, d, ps[1..]));
    }
  }

  /** The low 24 bits of the flags are the limit on the number of keys; if they are all zero it is 2^31-1. */
  lemma LimitInFlags(h: Heap, conv: ToInt, pred: Pred, root: ObjId, m: nat, k: nat, hits: seq<Hit>)
    requires ValidHeap(h) && root in h && k < 0x100_0000
    ensures hits == Report(h, conv, pred, MaxDepth(m * 0x100_0000 + k), root)
       <==> IsReport(h, conv, pred, if k == 0 then 0x7fff_ffff else k, root, hits)
  {
    assert (m * 0x100_0000 + k) % 0x100_0000 == k;
    ReportIsExact(h, conv, pred, if k == 0 then 0x7fff_ffff else k, root, hits);
  }

  /** js_deep_select: every accepted path within the depth limit, in preorder. */
  method Select(h: Heap, conv: ToInt, root: ObjId, pred: Pred, flags: nat) returns (ret: seq<Hit>)
    requires ValidHeap(h) && root in h && Len(h, root) > 0
    ensures ret == Report(h, conv, pred, MaxDepth(flags), root)
    ensures IsReport(h, conv, pred, MaxDepth(flags), root, ret)
  {
    hide IsReport;
    var d := MaxDepth(flags);
    ReportIsExact(h, conv, pred, d, root, Report(h, conv, pred, d, root));
    var walk := new FrameVector(h);
    walk.Push(root);
    StartOfWalk(h, root);
    ret := [];
    var it := true;
    while it
      invariant fresh(walk) && walk.h == h && walk.Valid() && Simple(h, walk.frames) && it == (walk.frames != [])
      invariant Resting(h, walk.frames) && |walk.frames| <= d
      invariant ret + Pending(h, conv, pred, d, walk.frames) == Report(h, conv, pred, d, root)
      decreases |Todo(h, walk.frames)|
    {
      var top := Top(walk.frames);
      var result := pred(ValueAt(h, top), SpelledKey(h, conv, top));
      ghost var before, here := ret, HitOf(h, conv, walk.frames);
      if result {
        var hit := DeepReturn(h, conv, walk.frames);
        ret := ret + [hit];
      }
      it := Advance(walk, d, conv, pred);
      ghost var rest := Pending(h, conv, pred, d, walk.frames);
      Append(before, here, rest);
      assert [] + rest == rest;
    }
  }

  /** js_deep_find: the first path select would report. */
  method Find(h: Heap, conv: ToInt, root: ObjId, pred: Pred, flags: nat) returns (ret: Option<Hit>)
    requires ValidHeap(h) && root in h && Len(h, root) > 0
    ensures var all := Report(h, conv, pred, MaxDepth(flags), root);
            && IsReport(h, conv, pred, MaxDepth(flags), root, all)
            && ret == if all == [] then None else Some(all[0])
  {
    hide IsReport;
    var d := MaxDepth(flags);
    ReportIsExact(h, conv, pred, d, root, Report(h, conv, pred, d, root));
    var walk := new FrameVector(h);
    walk.Push(root);
    StartOfWalk(h, root);
    var it := true;
    while it
      invariant fresh(walk) && walk.h == h && walk.Valid() && Simple(h, walk.frames) && it == (walk.frames != [])
      invariant Resting(h, walk.frames) && |walk.frames| <= d
      invariant Pending(h, conv, pred, d, walk.frames) == Report(h, conv, pred, d, root)
      decreases |Todo(h, walk.frames)|
    {
      var top := Top(walk.frames);
      if pred(ValueAt(h, top), SpelledKey(h, conv, top)) {
        PendingSplit(h, conv, pred, d, walk.frames);
        var hit := DeepReturn(h, conv, walk.frames);
        return Some(hit);
      }
      it := Advance(walk, d, conv, pred);
    }
    return None;
  }

  lemma NextVisit(w: seq<Stack>, n: nat, fs: Stack, rest: seq<Stack>)
    requires n <= |w| && w[n..] == [fs] + rest
    ensures n < |w| && w[n] == fs && w[n+1..] == rest
  {
    assert w[n] == w[n..][0];
    assert w[n+1..] == w[n..][1..];
  }

  function Max(a: nat, b: nat): nat {
    if a < b then b else a
  }

  ghost function Longest(ps: seq<Stack>): nat {
    if ps == [] then 0 else Max(|ps[0]|, Longest(ps[1..]))
  }

  lemma {:induction false} LongestIsMaximum(ps: seq<Stack>)
    ensures forall p :: p in ps ==> |p| <= Longest(ps)
    ensures ps != [] ==> exists p :: p in ps && |p| == Longest(ps)
  {
    if ps != [] {
      LongestIsMaximum(ps[1..]);
      assert ps[0] in ps;
      if |ps| > 1 && Longest(ps) != |ps[0]| {
        var p :| p in ps[1..] && |p| == Longest(ps[1..]);
        assert p in ps;
      }
    }
  }

  /** property_enumeration_deepest: the length of the longest simple path, but at least 1 for an
      object and 0 for anything else. */
  method Deepest(h: Heap, v: Value) returns (r: nat)
    requires ValidHeap(h) && (v.Object? ==> v.id in h)
    ensures r == if v.Object? then Max(1, Longest(Preorder(h, [], v.id, 0))) else 0
  {
    hide Preorder, Below, After, ValidHeap, Objs;
    r := 0;
    if v.Object? {
      var walk := new FrameVector(h);
      walk.Push(v.id);
      StartOfWalk(h, v.id);
      var it := true;
      while it
        invariant fresh(walk) && walk.h == h && walk.Valid() && it == (walk.frames != [])
        invariant Resting(h, walk.frames) && (r == 0 ==> it)
        invariant Max(Max(r, 1), Longest(Todo(h, walk.frames))) == Max(1, Longest(Preorder(h, [], v.id, 0)))
        decreases it && !Simple(h, walk.frames), |Todo(h, walk.frames)|
      {
        if r < |walk.frames| {
          r := |walk.frames|;
        }
        it := walk.Recurse();
      }
    }
  }

  /** deepest, without reference to the walk: no simple path is longer, and one is as long. */
  lemma DeepestIsLongestPath(h: Heap, root: ObjId)
    requires ValidHeap(h) && root in h
    ensures var r := Max(1, Longest(Preorder(h, [], root, 0)));
            && (forall p :: PathFrom(h, root, p) ==> |p| <= r)
            && (Len(h, root) > 0 ==> exists p :: PathFrom(h, root, p) && |p| == r)
            && r <= Max(1, |h|)
  {
    var w := Preorder(h, [], root, 0);
    PreorderIsTheSimplePaths(h, root, w);
    LongestIsMaximum(w);
    if Len(h, root) > 0 {
      assert SimplePath(h, [Frame(root, 0)]) && PathFrom(h, root, [Frame(root, 0)]);
      assert [Frame(root, 0)] in w;
      var p :| p in w && |p| == Longest(w);
      assert PathFrom(h, root, p);
      SimpleIsSimplePath(h, p);
      HeightBound(h, p);
    }
  }

  /** p is the least path whose value passes eq. */
  ghost predicate IsFirst(h: Heap, root: ObjId, eq: Value -> bool, p: Stack) {
    && PathFrom(h, root, p) && eq(ValueAt(h, Top(p)))
    && forall q :: PathFrom(h, root, q) && q != p && eq(ValueAt(h, Top(q))) ==> Before(p, q)
  }

  /** js_deep_pathof: the path of the first value equal to the target; eq is js_value_equals with
      the target filled in. */
  method PathOf(h: Heap, conv: ToInt, root: ObjId, eq: Value -> bool) returns (ret: Option<seq<Key>>)
    requires ValidHeap(h) && root in h && Len(h, root) > 0
    ensures ret.None? ==> forall p :: PathFrom(h, root, p) ==> !eq(ValueAt(h, Top(p)))
    ensures ret.Some? ==>
              exists p :: IsFirst(h, root, eq, p) && ret.value == SpelledPath(h, conv, p)
                       && Tells(h, conv, p, Hit(ValueAt(h, Top(p)), ret.value))
  {
    hide Preorder, Below, After, ValidHeap, IsFirst, SpelledPath, Resting, PathFrom, NoneBefore, Todo;
    var walk := new FrameVector(h);
    ghost var w := Preorder(h, [], root, 0);
    walk.Push(root);
    StartOfWalk(h, root);
    var it := true;
    ghost var n := 0;
    NoneStep(h, eq, w, n);
    while it
      invariant fresh(walk) && walk.h == h && walk.Valid() && Simple(h, walk.frames) && it == (walk.frames != [])
      invariant Resting(h, walk.frames) && n <= |w| && w[n..] == Todo(h, walk.frames)
      invariant NoneBefore(h, eq, w, n)
      decreases |w| - n
    {
      ghost var fs := walk.frames;
      Standing(h, w, n, fs);
      if eq(ValueAt(h, Top(walk.frames))) {
        FirstInOrder(h, root, eq, w, n);
        PathTells(h, conv, fs);
        var path := EnumerationPath(h, conv, walk.frames);
        return Some(path);
      }
      it := walk.Recurse();
      NextVisit(w, n, fs, Todo(h, walk.frames));
      n := n + 1;
      NoneStep(h, eq, w, n);
    }
    Standing(h, w, n, []);
    NoneAtAll(h, root, eq, w);
    return None;
  }

  /** Where the walk stands in its order. */
  lemma Standing(h: Heap, w: seq<Stack>, n: nat, fs: Stack)
    requires ValidHeap(h) && Simple(h, fs) && Resting(h, fs) && n <= |w| && w[n..] == Todo(h, fs)
    ensures fs == [] ==> n == |w|
    ensures fs != [] ==> n < |w| && w[n] == fs && InRange(h, Top(fs))
  {
    hide ValidHeap, Preorder, Below, After;
    if fs != [] {
      TodoSplit(h, fs);
      assert w[n..][0] == w[n];
    }
  }

  /** None of the first n paths of w has a value that passes eq. */
  ghost predicate NoneBefore(h: Heap, eq: Value -> bool, w: seq<Stack>, n: nat) {
    n <= |w| && forall m :: 0 <= m < n ==> !(w[m] != [] && InRange(h, Top(w[m])) && eq(ValueAt(h, Top(w[m]))))
  }

  lemma NoneStep(h: Heap, eq: Value -> bool, w: seq<Stack>, n: nat)
    requires n <= |w|
    requires n > 0 ==> NoneBefore(h, eq, w, n - 1)
                       && w[n-1] != [] && InRange(h, Top(w[n-1])) && !eq(ValueAt(h, Top(w[n-1])))
    ensures NoneBefore(h, eq, w, n)
  {
  }

  lemma NoneAtAll(h: Heap, root: ObjId, eq: Value -> bool, w: seq<Stack>)
    requires ValidHeap(h) && root in h && w == Preorder(h, [], root, 0) && NoneBefore(h, eq, w, |w|)
    ensures forall p :: PathFrom(h, root, p) ==> !eq(ValueAt(h, Top(p)))
  {
    hide Preorder, ValidHeap;
    PreorderIsTheSimplePaths(h, root, w);
    forall p | PathFrom(h, root, p) ensures !eq(ValueAt(h, Top(p))) {
      var m :| 0 <= m < |w| && w[m] == p;
    }
  }

  lemma FirstInOrder(h: Heap, root: ObjId, eq: Value -> bool, w: seq<Stack>, n: nat)
    requires ValidHeap(h) && root in h && w == Preorder(h, [], root, 0) && n < |w|
    requires w[n] != [] && InRange(h, Top(w[n])) && eq(ValueAt(h, Top(w[n]))) && NoneBefore(h, eq, w, n)
    ensures IsFirst(h, root, eq, w[n])
  {
    hide Preorder, ValidHeap;
    PreorderIsTheSimplePaths(h, root, w);
    forall q | PathFrom(h, root, q) && q != w[n] && eq(ValueAt(h, Top(q))) ensures Before(w[n], q) {
      assert q in w;
      var m :| 0 <= m < |w| && w[m] == q;
    }
  }

  /** js_deep_foreach: the calls made, in order. The type mask is a predicate on values. */
  method ForEach(h: Heap, conv: ToInt, root: ObjId, inMask: Value -> bool) returns (calls: seq<Hit>)
    requires ValidHeap(h) && root in h
    ensures calls == Report(h, conv, (v, k) => inMask(v), |h|, root)
    ensures IsReport(h, conv, (v, k) => inMask(v), |h|, root, calls)
  {
    hide Preorder, Below, After, ValidHeap, Objs, IsReport;
    ghost var pred := (v, k) => inMask(v);
    ReportIsExact(h, conv, pred, |h|, root, Report(h, conv, pred, |h|, root));
    var walk := new FrameVector(h);
    walk.Push(root);
    StartOfWalk(h, root);
    calls := [];
    var it := true;
    while it
      invariant fresh(walk) && walk.h == h && walk.Valid() && it == (walk.frames != [])
      invariant Resting(h, walk.frames)
      invariant calls + Pending(h, conv, pred, |h|, walk.frames) == Report(h, conv, pred, |h|, root)
      decreases it && !Simple(h, walk.frames), |Todo(h, walk.frames)|
    {
      ghost var fs, before := walk.frames, calls;
      var top := Top(walk.frames);
      if Len(h, top.obj) != 0 {
        if inMask(ValueAt(h, top)) {
          var hit := DeepReturn(h, conv, walk.frames);
          calls := calls + [hit];
        }
      }
      it := walk.Recurse();
      if Simple(h, fs) {
        ForEachStep(h, conv, pred, before, fs, walk.frames);
      }
    }
  }

  lemma ForEachStep(h: Heap, conv: ToInt, pred: Pred, before: seq<Hit>, fs: Stack, gs: Stack)
    requires ValidHeap(h) && Simple(h, fs) && fs != [] && Resting(h, fs) && Resting(h, gs)
    requires Todo(h, fs) == [fs] + Todo(h, gs)
    ensures before + Pending(h, conv, pred, |h|, fs)
         == (if Accepts(h, conv, pred, fs) then before + [HitOf(h, conv, fs)] else before)
            + Pending(h, conv, pred, |h|, gs)
  {
    HeightBound(h, fs);
    PendingStep(h, conv, pred, |h|, fs, gs);
    var rest := Pending(h, conv, pred, |h|, gs);
    Append(before, HitOf(h, conv, fs), rest);
    assert [] + rest == rest;
  }

  /** Dereferencing the keys along a path gives the value the path stands on. */
  lemma {:induction false} DerefKeyPath(h: Heap, fs: Stack)
    requires ValidHeap(h) && Simple(h, fs) && fs != []
    ensures Deref(h, Object(fs[0].obj), KeyPath(h, fs)) == Some(ValueAt(h, Top(fs)))
  {
    var base, top := Init(fs), Top(fs);
    IndexOfKeyAt(h[top.obj].props, top.idx);
    if base != [] {
      DerefKeyPath(h, base);
    }
    DerefConcat(h, Object(fs[0].obj), KeyPath(h, base), [KeyAt(h, top)]);
    var v := Object(top.obj);
    assert Deref(h, Object(fs[0].obj), KeyPath(h, base)) == Some(v);
    assert [KeyAt(h, top)][1..] == [];
    assert Deref(h, v, [KeyAt(h, top)]) == Deref(h, GetProperty(h, v, KeyAt(h, top)), []);
  }

  /** No frame stands on a property of an array that is not an element. */
  ghost predicate OnElements(h: Heap, fs: Stack) {
    forall i :: 0 <= i < |fs| && InRange(h, fs[i]) && h[fs[i].obj].isArray ==> KeyAt(h, fs[i]).Index?
  }

  /** The path handed out has the true keys exactly when every array on it is left by an element. */
  lemma {:induction false} SpelledPathExact(h: Heap, conv: ToInt, fs: Stack)
    requires Simple(h, fs)
    ensures SpelledPath(h, conv, fs) == KeyPath(h, fs) <==> OnElements(h, fs)
  {
    if fs != [] {
      var base, top := Init(fs), Top(fs);
      SpelledPathExact(h, conv, base);
      assert fs == base + [top];
      Spell(h, conv, base, top);
      SameEnd(SpelledPath(h, conv, base), SpelledKey(h, conv, top), KeyPath(h, base), KeyAt(h, top));
    }
  }

  lemma Spell(h: Heap, conv: ToInt, base: Stack, top: Frame)
    requires Simple(h, base + [top]) && Simple(h, base)
    ensures SpelledPath(h, conv, base + [top]) == SpelledPath(h, conv, base) + [SpelledKey(h, conv, top)]
    ensures KeyPath(h, base + [top]) == KeyPath(h, base) + [KeyAt(h, top)]
    ensures |SpelledPath(h, conv, base)| == |KeyPath(h, base)|
    ensures OnElements(h, base + [top])
            <==> OnElements(h, base) && SpelledKey(h, conv, top) == KeyAt(h, top)
  {
    var fs := base + [top];
    assert Init(fs) == base && Top(fs) == top;
    assert fs[|base|] == top && forall i :: 0 <= i < |base| ==> fs[i] == base[i];
  }

  lemma SameEnd(s: seq<Key>, x: Key, t: seq<Key>, y: Key)
    requires |s| == |t|
    ensures s + [x] == t + [y] <==> s == t && x == y
  {
    if s + [x] == t + [y] {
      assert s == (s + [x])[..|s|] == (t + [y])[..|s|] == t;
      assert x == (s + [x])[|s|] == (t + [y])[|s|] == y;
    }
  }

  /** A number that is not among the keys. */
  function Unused(ps: seq<Prop>): (n: nat)
    ensures forall i :: 0 <= i < |ps| && ps[i].key.Index? ==> ps[i].key.n < n
  {
    if ps == [] then 0
    else
      var n, k := Unused(ps[1..]), ps[0].key;
      if k.Index? && k.n >= n then k.n + 1 else n
  }

  /** Where an array is left by a name, the number made of the name can lead nowhere. */
  lemma {:induction false} LeadsNowhere(h: Heap, fs: Stack) returns (conv: ToInt)
    requires ValidHeap(h) && Simple(h, fs) && !OnElements(h, fs)
    ensures Deref(h, Object(fs[0].obj), SpelledPath(h, conv, fs)) == None
  {
    var base, top := Init(fs), Top(fs);
    assert fs == base + [top];
    if !OnElements(h, base) {
      conv := LeadsNowhere(h, base);
    } else {
      var n := Unused(h[top.obj].props);
      conv := _ => n;
      if base != [] { DerefKeyPath(h, base); }
      SpelledPathExact(h, conv, base);
      assert !HasProperty(h, Object(top.obj), Index(n));
    }
    Spell(h, conv, base, top);
    DerefConcat(h, Object(fs[0].obj), SpelledPath(h, conv, base), [SpelledKey(h, conv, top)]);
  }

  /** So what pathOf returns leads back to the value, whatever numbers are made of names, if and only if
      arrays are left by elements. */
  lemma PathOfLeadsBack(h: Heap, root: ObjId, eq: Value -> bool, p: Stack)
    requires ValidHeap(h) && IsFirst(h, root, eq, p)
    ensures (forall conv :: Deref(h, Object(root), SpelledPath(h, conv, p)) == Some(ValueAt(h, Top(p))))
       <==> OnElements(h, p)
  {
    SimpleIsSimplePath(h, p);
    if OnElements(h, p) {
      DerefKeyPath(h, p);
      forall conv ensures Deref(h, Object(root), SpelledPath(h, conv, p)) == Some(ValueAt(h, Top(p))) {
        SpelledPathExact(h, conv, p);
      }
    } else {
      var conv := LeadsNowhere(h, p);
      assert Deref(h, Object(root), SpelledPath(h, conv, p)) == None;
    }
  }

  /** No array of the graph has a property that is not an element. */
  ghost predicate ElementsOnly(h: Heap) {
    forall o, i :: o in h && h[o].isArray && 0 <= i < |h[o].props| ==> h[o].props[i].key.Index?
  }

  /** In such a graph every path that pathOf returns leads back, whatever is looked for. */
  lemma PathOfAlwaysLeadsBack(h: Heap, conv: ToInt, root: ObjId, eq: Value -> bool, p: Stack)
    requires ValidHeap(h) && ElementsOnly(h) && IsFirst(h, root, eq, p)
    ensures Deref(h, Object(root), SpelledPath(h, conv, p)) == Some(ValueAt(h, Top(p)))
  {
    PathOfLeadsBack(h, root, eq, p);
  }

  /** Nor is it otherwise with what the searches report: in such a graph the path of a hit leads to its
      value. */
  lemma HitsLeadBack(h: Heap, conv: ToInt, pred: Pred, d: nat, root: ObjId, hits: seq<Hit>)
    requires ValidHeap(h) && ElementsOnly(h) && IsReport(h, conv, pred, d, root, hits)
    ensures forall x :: x in hits ==> Deref(h, Object(root), x.path) == Some(x.value)
  {
    hide ValidHeap, ElementsOnly;
    var ps :| AreReported(h, conv, pred, d, root, ps) && EachTold(h, conv, ps, hits);
    forall x | x in hits ensures Deref(h, Object(root), x.path) == Some(x.value) {
      var k :| 0 <= k < |hits| && hits[k] == x;
      assert ps[k] in ps && Reported(h, conv, pred, d, root, ps[k]);
      HitLeadsBack(h, conv, root, ps[k], x);
    }
  }

  lemma HitLeadsBack(h: Heap, conv: ToInt, root: ObjId, p: Stack, x: Hit)
    requires ValidHeap(h) && ElementsOnly(h) && PathFrom(h, root, p) && Tells(h, conv, p, x)
    ensures Deref(h, Object(root), x.path) == Some(x.value)
  {
    SimpleIsSimplePath(h, p);
    HitTells(h, conv, p, x);
    DerefKeyPath(h, p);
    SpelledPathExact(h, conv, p);
  }

  /** Without that proviso it need not: an array's named property is spelled as element 0. Nor does a
      search for the name find it, since the predicate is given the number. */
  lemma PathOfArrayProperty(conv: ToInt) returns (h: Heap, p: Stack)
    requires conv(Name("tag")) == 0
    ensures ValidHeap(h) && PathFrom(h, 0, p)
    ensures Deref(h, Object(0), SpelledPath(h, conv, p)) != Some(ValueAt(h, Top(p)))
    ensures KeyAt(h, Top(p)) == Name("tag") && !Accepts(h, conv, (v, k) => k == Name("tag"), p)
  {
    var ps := [Prop(Index(0), Primitive("zero")), Prop(Name("tag"), Primitive("t"))];
    h := map[0 := Obj(true, ps)];
    p := [Frame(0, 1)];
    assert SpelledPath(h, conv, p) == [Index(0)];
    assert Deref(h, Primitive("zero"), [Index(0)][1..]) == Some(Primitive("zero"));
  }

  /** What is to come is the end of all there is. */
  ghost predicate Ends(all: seq<Hit>, coming: seq<Hit>) {
    |coming| <= |all| && all[|all|-|coming|..] == coming
  }

  lemma EndsItself(all: seq<Hit>)
    ensures Ends(all, all)
  {
  }

  lemma EndsLater(all: seq<Hit>, x: Hit, later: seq<Hit>)
    requires Ends(all, [x] + later)
    ensures Ends(all, later) && x in all
  {
    var n := |all| - |later|;
    assert all[n-1..][1..] == all[n..] && ([x] + later)[1..] == later;
    assert all[n-1] == all[n-1..][0] == x;
  }

  /** The value and the path of a simple path that is to be reported. */
  ghost predicate IsHit(h: Heap, conv: ToInt, pred: Pred, d: nat, root: ObjId, x: Hit) {
    exists p :: Reported(h, conv, pred, d, root, p) && Tells(h, conv, p, x)
  }

  lemma HitIsReported(h: Heap, conv: ToInt, pred: Pred, d: nat, root: ObjId, x: Hit)
    requires ValidHeap(h) && root in h && x in Report(h, conv, pred, d, root)
    ensures IsHit(h, conv, pred, d, root, x)
  {
    hide ValidHeap, Report;
    var hits := Report(h, conv, pred, d, root);
    ReportIsExact(h, conv, pred, d, root, hits);
    var ps :| AreReported(h, conv, pred, d, root, ps) && EachTold(h, conv, ps, hits);
    var k :| 0 <= k < |hits| && hits[k] == x;
    assert ps[k] in ps && Reported(h, conv, pred, d, root, ps[k]);
  }

  /** An iterator over a graph: paused on the last path it handed out. */
  class DeepIterator {
    const walk: FrameVector
    const root: ObjId
    const pred: Pred
    const conv: ToInt
    const d: nat

    ghost predicate Valid()
      reads this, walk
    {
      && ValidHeap(walk.h) && root in walk.h && Simple(walk.h, walk.frames) && |walk.frames| <= d && d >= 1
      && Ends(Report(walk.h, conv, pred, d, root), Coming())
    }

    /** The hits still to come; an exhausted iterator starts over. */
    ghost function Coming(): seq<Hit>
      reads this, walk
      requires ValidHeap(walk.h) && root in walk.h
    {
      if walk.frames == [] then Report(walk.h, conv, pred, d, root)
      else Later(walk.h, conv, pred, d, walk.frames)
    }

    constructor (h: Heap, toInt: ToInt, start: ObjId, accept: Pred, flags: nat)
      requires ValidHeap(h) && start in h
      ensures Valid() && fresh(walk) && walk.h == h && conv == toInt && root == start && pred == accept
      ensures d == MaxDepth(flags) && walk.frames == []
      ensures Coming() == Report(h, toInt, accept, MaxDepth(flags), start)
    {
      root, pred, conv, d := start, accept, toInt, MaxDepth(flags);
      walk := new FrameVector(h);
    }

    /** js_deep_iterator_next: the next hit, or None once, after which the walk begins again. */
    method Next() returns (r: Option<Hit>)
      requires Valid()
      modifies walk
      ensures Valid()
      ensures r.Some? ==> old(Coming()) == [r.value] + Coming() && walk.frames != []
      ensures r.Some? ==> IsHit(walk.h, conv, pred, d, root, r.value)
      ensures r.None? ==> old(Coming()) == [] && walk.frames == []
    {
      hide IsHit, Ends, Report, Later, ValidHeap, SpelledPath, Tells, Here, HitOf, SpelledKey;
      hide DeepIterator.Coming, DeepIterator.Remaining;
      ghost var coming := Coming();
      ghost var all := Report(walk.h, conv, pred, d, root);
      while true
        invariant walk.Valid() && |walk.frames| <= d && Coming() == coming
        decreases walk.frames == [], Remaining()
      {
        var penum := Turn();
        if !penum {
          EndsItself(all);
          return None;
        }
        if Len(walk.h, Top(walk.frames).obj) == 0 {
          continue;
        }
        HereIs(walk.h, conv, pred, walk.frames);
        if !pred(ValueAt(walk.h, Top(walk.frames)), SpelledKey(walk.h, conv, Top(walk.frames))) {
          ghost var later := Coming();
          assert [] + later == later;
          continue;
        }
        var hit := DeepReturn(walk.h, conv, walk.frames);
        EndsLater(all, hit, Coming());
        HitIsReported(walk.h, conv, pred, d, root, hit);
        return Some(hit);
      }
    }

    /** How many frames the walk can still show. */
    ghost function Remaining(): nat
      reads this, walk
      requires walk.Valid()
    {
      if Simple(walk.h, walk.frames) then
        assert walk.frames != [] ==> Enterable(walk.h, Init(walk.frames), Top(walk.frames).obj);
        |Todo(walk.h, walk.frames)|
      else 1
    }

    /** Start, skip or recurse. */
    method Turn() returns (penum: bool)
      requires walk.Valid() && |walk.frames| <= d && d >= 1 && root in walk.h
      modifies walk
      ensures walk.Valid() && |walk.frames| <= d && penum == (walk.frames != [])
      ensures old(walk.frames) != [] && penum ==> Remaining() < old(Remaining())
      ensures !penum ==> old(Coming()) == [] && Coming() == Report(walk.h, conv, pred, d, root)
      ensures penum && Simple(walk.h, walk.frames) ==>
                old(Coming()) == Here(walk.h, conv, pred, walk.frames) + Coming()
      ensures penum && !Simple(walk.h, walk.frames) ==> old(Coming()) == [] == Coming()
    {
      penum := true;
      if |walk.frames| == 0 {
        walk.Push(root);
        StartOfWalk(walk.h, root);
      } else {
        penum := Advance(walk, d, conv, pred);
      }
      if penum && Simple(walk.h, walk.frames) {
        PendingSplit(walk.h, conv, pred, d, walk.frames);
      }
    }
  }
}

/** What a deep walk is meant to visit: the simple paths of an object graph, in recursive preorder. */
module SimplePaths {

  import opened ObjectGraph

  /** One PropertyEnumeration: an object and the index of its current property. */
  datatype Frame = Frame(obj: ObjId, idx: nat)

  type Stack = seq<Frame>

  function Len(h: Heap, o: ObjId): nat
    requires o in h
  {
    |h[o].props|
  }

  predicate InRange(h: Heap, f: Frame) {
    f.obj in h && f.idx < Len(h, f.obj)
  }

  function ValueAt(h: Heap, f: Frame): Value
    requires f.obj in h && f.idx < Len(h, f.obj)
  {
    h[f.obj].props[f.idx].val
  }

  function KeyAt(h: Heap, f: Frame): Key
    requires f.obj in h && f.idx < Len(h, f.obj)
  {
    h[f.obj].props[f.idx].key
  }

  function Init(fs: Stack): Stack
    requires fs != []
  {
    fs[..|fs|-1]
  }

  function Top(fs: Stack): Frame
    requires fs != []
  {
    fs[|fs|-1]
  }

  /** The objects on the stack. */
  function Objs(fs: Stack): set<ObjId> {
    if fs == [] then {} else Objs(Init(fs)) + {Top(fs).obj}
  }

  /** Object o is the current value of the top frame. */
  ghost predicate OnTop(h: Heap, fs: Stack, o: ObjId) {
    fs != [] ==> InRange(h, Top(fs)) && ValueAt(h, Top(fs)) == Object(o)
  }

  /** A simple path: every frame is in range, sits on the current value of the frame below it,
      and no object occurs twice. */
  ghost predicate Simple(h: Heap, fs: Stack) {
    fs != [] ==>
      && Simple(h, Init(fs)) && InRange(h, Top(fs))
      && OnTop(h, Init(fs), Top(fs).obj) && Top(fs).obj !in Objs(Init(fs))
  }

  /** The keys along a path: property_enumeration_path without its integer conversion. */
  function KeyPath(h: Heap, fs: Stack): (ks: seq<Key>)
    requires Simple(h, fs)
    ensures |ks| == |fs|
  {
    if fs == [] then [] else KeyPath(h, Init(fs)) + [KeyAt(h, Top(fs))]
  }

  /** Object o may be put on top of fs. */
  ghost predicate Enterable(h: Heap, fs: Stack, o: ObjId) {
    Simple(h, fs) && o in h && OnTop(h, fs, o) && o !in Objs(fs)
  }

  /** The recursive walk over properties i, i+1, ... of o, with fs below it on the stack. */
  ghost function Preorder(h: Heap, fs: Stack, o: ObjId, i: nat): seq<Stack>
    requires ValidHeap(h) && Enterable(h, fs, o)
    decreases h.Keys - Objs(fs), Len(h, o) - i, 1
  {
    if i >= Len(h, o) then []
    else
      var here := fs + [Frame(o, i)];
      SimplePush(h, fs, o, i);
      [here] + Below(h, here) + Preorder(h, fs, o, i + 1)
  }

  /** The strict descendants of a path. */
  ghost function Below(h: Heap, fs: Stack): seq<Stack>
    requires ValidHeap(h) && fs != [] && Simple(h, fs)
    decreases h.Keys - Objs(Init(fs)), Len(h, Top(fs).obj) - Top(fs).idx, 0
  {
    var v := ValueAt(h, Top(fs));
    if v.Object? && v.id !in Objs(fs) then Preorder(h, fs, v.id, 0) else []
  }

  lemma SimplePush(h: Heap, fs: Stack, o: ObjId, i: nat)
    requires Enterable(h, fs, o) && i < Len(h, o)
    ensures Simple(h, fs + [Frame(o, i)])
    ensures Init(fs + [Frame(o, i)]) == fs
  {
    assert Init(fs + [Frame(o, i)]) == fs;
  }

  /** A frame keeps a stack a simple path exactly when its object may be put there and has the property. */
  lemma SimplePushExact(h: Heap, fs: Stack, o: ObjId, i: nat)
    ensures Simple(h, fs + [Frame(o, i)]) <==> Enterable(h, fs, o) && i < Len(h, o)
  {
    assert Init(fs + [Frame(o, i)]) == fs;
  }

  /** The same notion, spelled out frame by frame. */
  ghost predicate SimplePath(h: Heap, p: Stack) {
    && (forall i :: 0 <= i < |p| ==> InRange(h, p[i]))
    && (forall i, j :: 0 <= i < j < |p| && j == i + 1 ==> ValueAt(h, p[i]) == Object(p[j].obj))
    && (forall i, j :: 0 <= i < j < |p| ==> p[i].obj != p[j].obj)
  }

  lemma {:induction false} ObjsAre(fs: Stack, o: ObjId)
    ensures o in Objs(fs) <==> exists i :: 0 <= i < |fs| && fs[i].obj == o
  {
    if fs != [] {
      ObjsAre(Init(fs), o);
      assert fs == Init(fs) + [Top(fs)];
    }
  }

  lemma {:induction false} SimpleIsSimplePath(h: Heap, p: Stack)
    ensures Simple(h, p) <==> SimplePath(h, p)
  {
    if p != [] {
      var q, f := Init(p), Top(p);
      assert p == q + [f];
      SimpleIsSimplePath(h, q);
      ObjsAre(q, f.obj);
      if SimplePath(h, p) {
        assert SimplePath(h, q);
        assert q != [] ==> Top(q) == p[|p|-2];
      }
    }
  }
}

/** Pointers: paths of atoms that read, create and remove places in an object graph. */
module Pointers {

  import opened Basics
  import opened ObjectGraph
  import opened Dereference

  const UNDEFINED: Value := Primitive("undefined")

  ghost predicate KeysDistinct(h: Heap) {
    forall o :: o in h ==> DistinctKeys(h[o].props)
  }

  /** Every id in use is below next and every object value names an existing object. */
  ghost predicate Allocated(h: Heap, next: ObjId) {
    && (forall o :: o in h ==> o < next)
    && (forall o, k :: Lookup(h, o, k).Some? && Lookup(h, o, k).value.Object? ==> Lookup(h, o, k).value.id in h)
  }

  /** A value that names an existing object if it names one at all. */
  predicate Live(h: Heap, v: Value) {
    v.Object? ==> v.id in h
  }

  function Lookup(h: Heap, o: ObjId, k: Key): Option<Value> {
    if HasProperty(h, Object(o), k) then Some(GetProperty(h, Object(o), k)) else None
  }

  /** Every property of g exists in h with the same value. */
  ghost predicate SubHeap(g: Heap, h: Heap) {
    forall o, k :: Lookup(g, o, k).Some? ==> Lookup(h, o, k) == Lookup(g, o, k)
  }

  function PutProp(ps: seq<Prop>, k: Key, x: Value): seq<Prop> {
    var i := IndexOfKey(ps, k);
    if i < |ps| then ps[i := Prop(k, x)] else ps + [Prop(k, x)]
  }

  /** JS_SetProperty: throws, and so changes nothing, on anything that is not an object. */
  function Put(h: Heap, v: Value, k: Key, x: Value): Heap {
    if v.Object? && v.id in h then h[v.id := h[v.id].(props := PutProp(h[v.id].props, k, x))] else h
  }

  /** JS_DeleteProperty. */
  function Remove(h: Heap, v: Value, k: Key): Heap {
    if HasProperty(h, v, k) then
      var ps := h[v.id].props;
      var i := IndexOfKey(ps, k);
      h[v.id := h[v.id].(props := ps[..i] + ps[i+1..])]
    else h
  }

  datatype Acquired = Acquired(h: Heap, next: ObjId, obj: Value)

  /** pointer_acquire: missing containers are made on the way, arrays where an integer key follows. */
  function Acquire(h: Heap, next: ObjId, v: Value, ks: seq<Key>): Acquired
    decreases |ks|
  {
    if ks == [] then Acquired(h, next, v)
    else if HasProperty(h, v, ks[0]) then Acquire(h, next, GetProperty(h, v, ks[0]), ks[1..])
    else Acquire(Put(h[next := Obj(|ks| > 1 && ks[1].Index?, [])], v, ks[0], Object(next)), next + 1,
                 Object(next), ks[1..])
  }

  function Last(path: seq<Key>): Key {
    if path == [] then NullAtom else path[|path|-1]
  }

  function Front(path: seq<Key>): seq<Key> {
    if path == [] then [] else path[..|path|-1]
  }

  function DeepSet(h: Heap, next: ObjId, root: Value, path: seq<Key>, x: Value): Acquired {
    var a := Acquire(h, next, root, Front(path));
    a.(h := Put(a.h, a.obj, Last(path), x))
  }

  function DeepUnset(h: Heap, root: Value, path: seq<Key>): Heap {
    match Deref(h, root, Front(path))
    case Some(obj) => Remove(h, obj, Last(path))
    case None => h
  }

  // ----- single steps

  lemma LookupPut(h: Heap, v: Value, k: Key, x: Value)
    ensures forall o, l :: Lookup(Put(h, v, k, x), o, l)
                        == if v == Object(o) && o in h && l == k then Some(x) else Lookup(h, o, l)
  {
    forall o, l ensures Lookup(Put(h, v, k, x), o, l)
                     == if v == Object(o) && o in h && l == k then Some(x) else Lookup(h, o, l)
    {
      if v == Object(o) && o in h {
        IndexAfterPut(h[o].props, k, x, l);
      }
    }
  }

  lemma {:induction false} IndexUnique(ps: seq<Prop>, k: Key, i: nat)
    requires i <= |ps| && (i < |ps| ==> ps[i].key == k) && forall j :: 0 <= j < i ==> ps[j].key != k
    ensures IndexOfKey(ps, k) == i
  {
  }

  lemma IndexAfterPut(ps: seq<Prop>, k: Key, x: Value, l: Key)
    ensures var qs := PutProp(ps, k, x);
            var i, j := IndexOfKey(ps, l), IndexOfKey(qs, l);
            if l == k then j < |qs| && qs[j].val == x
            else (j < |qs| <==> i < |ps|) && (i < |ps| ==> qs[j].val == ps[i].val)
  {
    var qs := PutProp(ps, k, x);
    var i, m := IndexOfKey(ps, l), IndexOfKey(ps, k);
    if l == k {
      IndexUnique(qs, k, m);
    } else if i < |ps| {
      IndexUnique(qs, l, i);
    } else {
      IndexUnique(qs, l, |qs|);
    }
  }

  lemma LookupRemove(h: Heap, v: Value, k: Key)
    requires KeysDistinct(h)
    ensures forall o, l :: Lookup(Remove(h, v, k), o, l)
                        == if v == Object(o) && l == k then None else Lookup(h, o, l)
  {
    hide Lookup, Remove, KeysDistinct;
    forall o, l ensures Lookup(Remove(h, v, k), o, l)
                     == if v == Object(o) && l == k then None else Lookup(h, o, l)
    {
      LookupRemoveAt(h, v, k, o, l);
    }
  }

  lemma LookupRemoveAt(h: Heap, v: Value, k: Key, o: ObjId, l: Key)
    requires KeysDistinct(h)
    ensures Lookup(Remove(h, v, k), o, l) == if v == Object(o) && l == k then None else Lookup(h, o, l)
  {
    hide IndexOfKey;
    if v == Object(o) && HasProperty(h, v, k) {
      IndexAfterRemove(h[o].props, k, l);
    }
  }

  lemma IndexAfterRemove(ps: seq<Prop>, k: Key, l: Key)
    requires DistinctKeys(ps) && IndexOfKey(ps, k) < |ps|
    ensures var n := IndexOfKey(ps, k);
            var qs := ps[..n] + ps[n+1..];
            var i, j := IndexOfKey(ps, l), IndexOfKey(qs, l);
            if l == k then j == |qs|
            else (j < |qs| <==> i < |ps|) && (i < |ps| ==> qs[j].val == ps[i].val)
  {
    hide IndexOfKey;
    var n, i := IndexOfKey(ps, k), IndexOfKey(ps, l);
    var qs := ps[..n] + ps[n+1..];
    if i == |ps| || l == k {
      IndexUnique(qs, l, |qs|);
    } else {
      IndexUnique(qs, l, if i < n then i else i - 1);
    }
  }

  lemma {:induction false} DerefMonotone(g: Heap, h: Heap, v: Value, ks: seq<Key>)
    requires SubHeap(g, h) && Deref(g, v, ks).Some?
    ensures Deref(h, v, ks) == Deref(g, v, ks)
    decreases |ks|
  {
    if ks != [] {
      assert Lookup(g, v.id, ks[0]).Some?;
      assert Lookup(h, v.id, ks[0]) == Lookup(g, v.id, ks[0]);
      DerefMonotone(g, h, GetProperty(g, v, ks[0]), ks[1..]);
    }
  }

  /** Following a path is following its front, then one more key. */
  lemma {:induction false} DerefLast(h: Heap, v: Value, path: seq<Key>)
    requires path != []
    ensures Deref(h, v, path)
         == match Deref(h, v, Front(path))
            case Some(obj) => if HasProperty(h, obj, Last(path)) then Some(GetProperty(h, obj, Last(path))) else None
            case None => None
  {
    assert path == Front(path) + [Last(path)];
    DerefConcat(h, v, Front(path), [Last(path)]);
    assert [Last(path)][1..] == [];
    assert Deref(h, v, Front(path)).Some? ==>
             var obj := Deref(h, v, Front(path)).value;
             HasProperty(h, obj, Last(path)) ==>
               Deref(h, obj, [Last(path)]) == Deref(h, GetProperty(h, obj, Last(path)), []);
  }

  /** After unset the path no longer leads anywhere, and no other property has changed. */
  lemma {:induction false} UnsetRemoves(h: Heap, root: Value, path: seq<Key>)
    requires KeysDistinct(h) && path != []
    ensures Deref(DeepUnset(h, root, path), root, path) == None
    ensures forall o, k :: Lookup(DeepUnset(h, root, path), o, k)
                        == if Deref(h, root, Front(path)) == Some(Object(o)) && k == Last(path) then None
                           else Lookup(h, o, k)
  {
    var g := DeepUnset(h, root, path);
    DerefLast(h, root, path);
    DerefLast(g, root, path);
    if Deref(h, root, Front(path)).Some? {
      LookupRemove(h, Deref(h, root, Front(path)).value, Last(path));
      if Deref(g, root, Front(path)).Some? {
        DerefMonotone(g, h, root, Front(path));
        var obj := Deref(h, root, Front(path)).value;
        if obj.Object? {
          assert Lookup(g, obj.id, Last(path)) == None;
        }
      }
    }
  }

  // ----- acquire

  /** All values already present along ks, the start included, are objects. */
  ghost predicate ObjectsAlong(h: Heap, v: Value, ks: seq<Key>)
    decreases |ks|
  {
    && v.Object? && v.id in h
    && (ks != [] && HasProperty(h, v, ks[0]) ==> ObjectsAlong(h, GetProperty(h, v, ks[0]), ks[1..]))
  }

  /** The heap after making one missing container. */
  function WithChild(h: Heap, next: ObjId, v: Value, ks: seq<Key>): Heap
    requires ks != []
  {
    Put(h[next := Obj(|ks| > 1 && ks[1].Index?, [])], v, ks[0], Object(next))
  }

  lemma WithChildSpec(h: Heap, next: ObjId, v: Value, ks: seq<Key>)
    requires Allocated(h, next) && Live(h, v) && ks != [] && !HasProperty(h, v, ks[0])
    ensures Allocated(WithChild(h, next, v, ks), next + 1) && SubHeap(h, WithChild(h, next, v, ks))
    ensures WithChild(h, next, v, ks).Keys == h.Keys + {next}
    ensures WithChild(h, next, v, ks)[next] == Obj(|ks| > 1 && ks[1].Index?, [])
    ensures forall o, k :: Lookup(WithChild(h, next, v, ks), o, k)
                        == if v == Object(o) && k == ks[0] then Some(Object(next)) else Lookup(h, o, k)
  {
    var h1 := h[next := Obj(|ks| > 1 && ks[1].Index?, [])];
    assert forall o, k :: Lookup(h1, o, k) == Lookup(h, o, k);
    LookupPut(h1, v, ks[0], Object(next));
  }

  lemma AcquireStep(h: Heap, next: ObjId, v: Value, ks: seq<Key>)
    ensures Acquire(h, next, v, ks)
         == if ks == [] then Acquired(h, next, v)
            else if HasProperty(h, v, ks[0]) then Acquire(h, next, GetProperty(h, v, ks[0]), ks[1..])
            else Acquire(WithChild(h, next, v, ks), next + 1, Object(next), ks[1..])
  {
  }

  lemma {:induction false} AcquireAllocates(h: Heap, next: ObjId, v: Value, ks: seq<Key>)
    requires Allocated(h, next) && Live(h, v)
    ensures var a := Acquire(h, next, v, ks);
            && Allocated(a.h, a.next) && Live(a.h, a.obj) && SubHeap(h, a.h)
            && next <= a.next && (a.next == next ==> a.h == h)
            && (ks != [] && !HasProperty(h, v, ks[0]) ==> next < a.next)
            && h.Keys <= a.h.Keys && (forall o :: o in a.h && o !in h ==> next <= o)
            && forall o :: o in h ==> a.h[o].isArray == h[o].isArray
    decreases |ks|
  {
    if ks != [] {
      if HasProperty(h, v, ks[0]) {
        assert Lookup(h, v.id, ks[0]).Some?;
        AcquireAllocates(h, next, GetProperty(h, v, ks[0]), ks[1..]);
      } else {
        WithChildSpec(h, next, v, ks);
        AcquireAllocates(WithChild(h, next, v, ks), next + 1, Object(next), ks[1..]);
      }
    }
  }

  /** Through objects, acquire ends where the path then leads, and no earlier step stands there once
      something had to be made. */
  lemma {:induction false} AcquireReaches(h: Heap, next: ObjId, v: Value, ks: seq<Key>)
    requires Allocated(h, next) && ObjectsAlong(h, v, ks)
    ensures var a := Acquire(h, next, v, ks);
            && Deref(a.h, v, ks) == Some(a.obj) && a.obj.Object? && a.obj.id in a.h
            && (a.next > next ==> a.obj == Object(a.next - 1))
            && (a.next > next ==> forall j :: 0 <= j < |ks| ==> Deref(a.h, v, ks[..j]) != Some(a.obj))
    decreases |ks|
  {
    hide IndexOfKey, Acquire;
    AcquireStep(h, next, v, ks);
    var a := Acquire(h, next, v, ks);
    if ks != [] {
      var h1, n1, v1 := h, next, v;
      if HasProperty(h, v, ks[0]) {
        v1 := GetProperty(h, v, ks[0]);
      } else {
        WithChildSpec(h, next, v, ks);
        h1, n1, v1 := WithChild(h, next, v, ks), next + 1, Object(next);
        assert ks[1..] != [] ==> Lookup(h1, next, ks[1]) == Lookup(h, next, ks[1]) == None;
      }
      assert Lookup(h1, v.id, ks[0]) == Some(v1);
      assert a == Acquire(h1, n1, v1, ks[1..]);
      AcquireAllocates(h1, n1, v1, ks[1..]);
      AcquireReaches(h1, n1, v1, ks[1..]);
      assert Lookup(a.h, v.id, ks[0]) == Some(v1);
      if a.next > next {
        forall j | 0 <= j < |ks| ensures Deref(a.h, v, ks[..j]) != Some(a.obj) {
          if j > 0 {
            assert ks[..j][1..] == ks[1..][..j-1];
            assert Deref(a.h, v, ks[..j]) == Deref(a.h, v1, ks[1..][..j-1]);
          }
        }
      }
    }
  }

  /** Through a value that is not an object, acquire loses the path: it ends on something that was
      not there before or is no object. */
  lemma {:induction false} AcquireMisses(h: Heap, next: ObjId, v: Value, ks: seq<Key>)
    requires Allocated(h, next) && Live(h, v) && !ObjectsAlong(h, v, ks)
    ensures var a := Acquire(h, next, v, ks);
            a.obj.Object? ==> next <= a.obj.id
    ensures exists j :: 0 <= j <= |ks| && Deref(h, v, ks[..j]).Some? && !Deref(h, v, ks[..j]).value.Object?
    decreases |ks|
  {
    if !v.Object? {
      assert Deref(h, v, ks[..0]) == Some(v);
      FromPrimitive(h, next, v, ks);
    } else {
      var v1 := GetProperty(h, v, ks[0]);
      assert Lookup(h, v.id, ks[0]) == Some(v1);
      AcquireMisses(h, next, v1, ks[1..]);
      var j :| 0 <= j <= |ks[1..]| && Deref(h, v1, ks[1..][..j]).Some? && !Deref(h, v1, ks[1..][..j]).value.Object?;
      assert ks[..j+1][1..] == ks[1..][..j];
      assert Deref(h, v, ks[..j+1]) == Deref(h, v1, ks[1..][..j]);
    }
  }

  lemma FromPrimitive(h: Heap, next: ObjId, v: Value, ks: seq<Key>)
    requires Allocated(h, next) && !v.Object?
    ensures var a := Acquire(h, next, v, ks);
            a.obj.Object? ==> next <= a.obj.id
  {
    if ks != [] {
      WithChildSpec(h, next, v, ks);
      FreshChain(WithChild(h, next, v, ks), next + 1, ks[1..]);
    }
  }

  /** From a container just made, every further container is made too. */
  lemma {:induction false} FreshChain(h: Heap, next: ObjId, ks: seq<Key>)
    requires next > 0 && Allocated(h, next) && next - 1 in h && h[next-1].props == []
    ensures var a := Acquire(h, next, Object(next - 1), ks);
            a.next == next + |ks| && a.obj == Object(a.next - 1)
    decreases |ks|
  {
    if ks != [] {
      WithChildSpec(h, next, Object(next - 1), ks);
      FreshChain(WithChild(h, next, Object(next - 1), ks), next + 1, ks[1..]);
    }
  }

  /** Acquire fills at most one property of the objects that were there: the first missing step. */
  lemma {:induction false} AcquireFrame(h: Heap, next: ObjId, v: Value, ks: seq<Key>, o: ObjId, k: Key)
    requires Allocated(h, next) && Live(h, v) && o in h
    ensures var a := Acquire(h, next, v, ks);
            Lookup(a.h, o, k) == Lookup(h, o, k) || FirstMissing(h, v, ks, o, k)
    decreases |ks|
  {
    if ks != [] {
      if HasProperty(h, v, ks[0]) {
        var v1 := GetProperty(h, v, ks[0]);
        assert Lookup(h, v.id, ks[0]) == Some(v1);
        AcquireFrame(h, next, v1, ks[1..], o, k);
      } else {
        var g := WithChild(h, next, v, ks);
        WithChildSpec(h, next, v, ks);
        AcquireFrame(g, next + 1, Object(next), ks[1..], o, k);
        assert Lookup(g, o, k) == if v == Object(o) && k == ks[0] then Some(Object(next)) else Lookup(h, o, k);
        FirstMissingAt(g, Object(next), ks[1..], o, k);
      }
    }
  }

  /** (o, k) is the first property along ks that does not exist. */
  ghost predicate FirstMissing(h: Heap, v: Value, ks: seq<Key>, o: ObjId, k: Key)
    decreases |ks|
  {
    ks != [] &&
    if HasProperty(h, v, ks[0]) then FirstMissing(h, GetProperty(h, v, ks[0]), ks[1..], o, k)
    else v == Object(o) && k == ks[0]
  }

  lemma FirstMissingAt(h: Heap, v: Value, ks: seq<Key>, o: ObjId, k: Key)
    requires v.Object? && v.id in h && h[v.id].props == []
    ensures FirstMissing(h, v, ks, o, k) ==> v == Object(o)
  {
  }

  // ----- set

  /** Step i of the path goes through the very property that set writes at its end. */
  ghost predicate ReusedAt(h: Heap, root: Value, path: seq<Key>, i: nat) {
    && i < |path| - 1 && path[i] == Last(path)
    && Deref(h, root, Front(path)).Some? && Deref(h, root, path[..i]) == Deref(h, root, Front(path))
  }

  ghost predicate Reused(h: Heap, root: Value, path: seq<Key>) {
    exists i :: ReusedAt(h, root, path, i)
  }

  /** Following ks after a write: up to the first step i that uses the written property nothing has
      changed. */
  lemma {:induction false} DerefAfterPut(h: Heap, v: Value, ks: seq<Key>, obj: Value, k: Key, x: Value) returns (i: nat)
    requires obj.Object? && obj.id in h
    ensures i <= |ks|
    ensures i < |ks| ==> Deref(h, v, ks[..i]) == Some(obj) && ks[i] == k
    ensures i < |ks| ==> Deref(Put(h, obj, k, x), v, ks) == Deref(Put(h, obj, k, x), x, ks[i+1..])
    ensures forall j :: 0 <= j < i ==> !(Deref(h, v, ks[..j]) == Some(obj) && ks[j] == k)
    decreases |ks|
  {
    hide IndexOfKey;
    var g := Put(h, obj, k, x);
    LookupPut(h, obj, k, x);
    if ks == [] {
      return 0;
    }
    assert v.Object? ==> Lookup(g, v.id, ks[0]) == if v == obj && ks[0] == k then Some(x) else Lookup(h, v.id, ks[0]);
    if v == obj && ks[0] == k {
      return 0;
    }
    assert Deref(h, v, ks[..0]) == Some(v);
    if !HasProperty(h, v, ks[0]) {
      i := |ks|;
      forall j | 0 < j < i ensures Deref(h, v, ks[..j]) == None {
      }
      return;
    }
    var v1 := GetProperty(h, v, ks[0]);
    var m := DerefAfterPut(h, v1, ks[1..], obj, k, x);
    i := m + 1;
    assert forall j :: 0 < j <= |ks| ==> ks[..j][1..] == ks[1..][..j-1];
    assert m < |ks| - 1 ==> ks[1..][m+1..] == ks[i+1..];
    forall j | 0 <= j < i ensures !(Deref(h, v, ks[..j]) == Some(obj) && ks[j] == k) {
      if j > 0 {
        assert Deref(h, v, ks[..j]) == Deref(h, v1, ks[1..][..j-1]);
      }
    }
  }

  /** After acquire, an earlier step stands on the last object exactly when it did before. */
  lemma ReusedAfterAcquire(h: Heap, next: ObjId, root: Value, path: seq<Key>, i: nat)
    requires Allocated(h, next) && path != [] && ObjectsAlong(h, root, Front(path)) && i < |path| - 1
    ensures var a := Acquire(h, next, root, Front(path));
            Deref(a.h, root, path[..i]) == Some(a.obj) && path[i] == Last(path) <==> ReusedAt(h, root, path, i)
  {
    var a := Acquire(h, next, root, Front(path));
    AcquireAllocates(h, next, root, Front(path));
    AcquireReaches(h, next, root, Front(path));
    assert Front(path)[..i] == path[..i];
    if a.next > next {
      if Deref(h, root, Front(path)).Some? {
        DerefMonotone(h, a.h, root, Front(path));
        ObjectThere(h, next, root, Front(path));
      }
    }
  }

  lemma {:induction false} ObjectThere(h: Heap, next: ObjId, v: Value, ks: seq<Key>)
    requires Allocated(h, next) && Live(h, v) && Deref(h, v, ks).Some?
    ensures Acquire(h, next, v, ks) == Acquired(h, next, Deref(h, v, ks).value)
    decreases |ks|
  {
    if ks != [] {
      assert Lookup(h, v.id, ks[0]).Some?;
      ObjectThere(h, next, GetProperty(h, v, ks[0]), ks[1..]);
    }
  }

  /** What get returns after set, in every case. */
  lemma SetThenGet(h: Heap, next: ObjId, root: Value, path: seq<Key>, x: Value)
    requires Allocated(h, next) && Live(h, root) && path != []
    ensures var g := DeepSet(h, next, root, path, x).h;
            if !ObjectsAlong(h, root, Front(path)) then Deref(g, root, path) == None
            else if !Reused(h, root, path) then Deref(g, root, path) == Some(x)
            else exists i :: ReusedAt(h, root, path, i) && Deref(g, root, path) == Deref(g, x, path[i+1..])
  {
    var front := Front(path);
    var a := Acquire(h, next, root, front);
    var g := DeepSet(h, next, root, path, x).h;
    AcquireAllocates(h, next, root, front);
    if ObjectsAlong(h, root, front) {
      AcquireReaches(h, next, root, front);
      var i := DerefAfterPut(a.h, root, path, a.obj, Last(path), x);
      assert path[..|path|-1] == front;
      assert i < |path|;
      if i < |path| - 1 {
        ReusedAfterAcquire(h, next, root, path, i);
        assert ReusedAt(h, root, path, i);
      } else {
        assert path[i+1..] == [];
        forall j | ReusedAt(h, root, path, j) ensures false {
          ReusedAfterAcquire(h, next, root, path, j);
        }
      }
    } else {
      AcquireMisses(h, next, root, front);
      var j :| 0 <= j <= |front| && Deref(h, root, front[..j]).Some? && !Deref(h, root, front[..j]).value.Object?;
      LookupPut(a.h, a.obj, Last(path), x);
      assert SubHeap(h, g) by {
        forall o, k | Lookup(h, o, k).Some? ensures Lookup(g, o, k) == Lookup(h, o, k) {
          assert Lookup(a.h, o, k) == Lookup(h, o, k);
        }
      }
      DerefMonotone(h, g, root, front[..j]);
      assert path == front[..j] + path[j..];
      DerefConcat(g, root, front[..j], path[j..]);
    }
  }

  /** A stored primitive is read back if and only if the path runs through objects only and does not
      pass through the property it ends in. */
  lemma PrimitiveReadBack(h: Heap, next: ObjId, root: Value, path: seq<Key>, x: Value)
    requires Allocated(h, next) && Live(h, root) && path != [] && x.Primitive?
    ensures Deref(DeepSet(h, next, root, path, x).h, root, path) == Some(x)
       <==> ObjectsAlong(h, root, Front(path)) && !Reused(h, root, path)
  {
    SetThenGet(h, next, root, path, x);
  }

  /** set changes the property the path ends in and, among the objects that were there, at most one
      more: the first missing step. Everything else it makes is new. */
  lemma SetFrame(h: Heap, next: ObjId, root: Value, path: seq<Key>, x: Value, o: ObjId, k: Key)
    requires Allocated(h, next) && Live(h, root) && path != [] && o in h
    ensures var s := DeepSet(h, next, root, path, x);
            && (Lookup(s.h, o, k) == Lookup(h, o, k)
                || (s.obj == Object(o) && k == Last(path))
                || FirstMissing(h, root, Front(path), o, k))
            && h.Keys <= s.h.Keys && forall n :: n in s.h && n !in h ==> n >= next
  {
    var a := Acquire(h, next, root, Front(path));
    AcquireAllocates(h, next, root, Front(path));
    AcquireFrame(h, next, root, Front(path), o, k);
    LookupPut(a.h, a.obj, Last(path), x);
  }

  /** Storing through a repeated step need not read back: x.self = x, then x.self.self := 1. */
  lemma SetThroughItself() returns (h: Heap, path: seq<Key>)
    ensures Allocated(h, 1) && ObjectsAlong(h, Object(0), Front(path))
    ensures Deref(DeepSet(h, 1, Object(0), path, Primitive("1")).h, Object(0), path) == None
  {
    var self := Name("self");
    h := map[0 := Obj(false, [Prop(self, Object(0))])];
    path := [self, self];
    assert Front(path) == [self] && [self][1..] == [];
    assert GetProperty(h, Object(0), self) == Object(0);
    assert Deref(h, Object(0), [self]) == Deref(h, Object(0), []);
    assert ReusedAt(h, Object(0), path, 0);
    PrimitiveReadBack(h, 1, Object(0), path, Primitive("1"));
    SetThenGet(h, 1, Object(0), path, Primitive("1"));
  }

  /** Where something had to be made it is a new container, an array just when the key that follows
      on the way to it is an integer; the last container is never an array. */
  lemma {:induction false} AcquireKinds(h: Heap, next: ObjId, v: Value, ks: seq<Key>, j: nat)
    requires Allocated(h, next) && ObjectsAlong(h, v, ks) && j < |ks| && Deref(h, v, ks[..j+1]) == None
    ensures var a := Acquire(h, next, v, ks);
            exists o :: next <= o && o in a.h && Deref(a.h, v, ks[..j+1]) == Some(Object(o))
                     && a.h[o].isArray == (j + 1 < |ks| && ks[j+1].Index?)
    decreases |ks|
  {
    hide IndexOfKey, Acquire;
    AcquireStep(h, next, v, ks);
    var a := Acquire(h, next, v, ks);
    var h1, n1, v1 := h, next, v;
    if HasProperty(h, v, ks[0]) {
      v1 := GetProperty(h, v, ks[0]);
      assert Lookup(h, v.id, ks[0]) == Some(v1);
    } else {
      WithChildSpec(h, next, v, ks);
      h1, n1, v1 := WithChild(h, next, v, ks), next + 1, Object(next);
      assert ks[1..] != [] ==> Lookup(h1, next, ks[1]) == Lookup(h, next, ks[1]) == None;
    }
    AcquireAllocates(h1, n1, v1, ks[1..]);
    assert Lookup(h1, v.id, ks[0]) == Some(v1) == Lookup(a.h, v.id, ks[0]);
    assert ks[..j+1][1..] == ks[1..][..j];
    var k, rest := ks[0], ks[1..][..j];
    assert forall g ::
      Deref(g, v, ks[..j+1]) == if HasProperty(g, v, k) then Deref(g, GetProperty(g, v, k), rest) else None;
    if j > 0 {
      if n1 > next {
        assert ks[1..][..j][0] == ks[1];
      }
      AcquireKinds(h1, n1, v1, ks[1..], j - 1);
    }
  }

  // ----- the code

  /** The object graph with its allocator. */
  class Realm {
    var h: Heap
    var next: ObjId

    ghost predicate Valid()
      reads this
    {
      Allocated(h, next)
    }

    method NewObject(isArray: bool) returns (v: Value)
      modifies this
      ensures v == Object(old(next)) && next == old(next) + 1 && h == old(h)[old(next) := Obj(isArray, [])]
    {
      v := Object(next);
      h := h[next := Obj(isArray, [])];
      next := next + 1;
    }

    /** JS_SetProperty: of an object there is, that property becomes x and no other changes. */
    method SetProperty(v: Value, k: Key, x: Value)
      modifies this
      ensures forall o, l :: Lookup(h, o, l)
                == if v == Object(o) && o in old(h) && l == k then Some(x) else Lookup(old(h), o, l)
      ensures h == Put(old(h), v, k, x) && next == old(next)
    {
      LookupPut(h, v, k, x);
      h := Put(h, v, k, x);
    }
  }

  /** A Pointer: n atoms in a buffer that may be longer. */
  class Pointer {
    var atoms: seq<Key>
    var n: nat

    ghost predicate Valid()
      reads this
    {
      n <= |atoms|
    }

    ghost function Path(): (p: seq<Key>)
      reads this
      requires Valid()
      ensures |p| == n
    {
      atoms[..n]
    }

    constructor ()
      ensures Valid() && Path() == []
    {
      atoms, n := [], 0;
    }

    method Push(atom: Key)
      requires Valid()
      modifies this
      ensures Valid() && Path() == old(Path()) + [atom]
    {
      atoms := atoms[..n] + [atom];
      n := n + 1;
    }

    method Pop() returns (ret: Key)
      requires Valid()
      modifies this
      ensures Valid() && Path() == Front(old(Path())) && ret == Last(old(Path()))
    {
      ret := NullAtom;
      if n > 0 {
        ret := atoms[n-1];
        n := n - 1;
        atoms := atoms[n := NullAtom];
      }
    }

    /** pointer_shift: drop the first atom and read that property; undefined when there is none. */
    method Shift(h: Heap, obj: Value) returns (ret: Value)
      requires Valid()
      modifies this
      ensures Valid()
      ensures old(Path()) == [] ==> Path() == [] && ret == UNDEFINED
      ensures old(Path()) != [] ==> Path() == old(Path())[1..] && ret == Read(h, obj, old(Path())[0])
    {
      ret := UNDEFINED;
      if n > 0 {
        var atom := atoms[0];
        var i := 1;
        while i < n
          invariant 1 <= i <= n == old(n) && |atoms| == |old(atoms)|
          invariant forall j :: 0 <= j < i - 1 ==> atoms[j] == old(atoms)[j+1]
          invariant forall j :: i - 1 <= j < |atoms| ==> atoms[j] == old(atoms)[j]
        {
          atoms := atoms[i-1 := atoms[i]];
          i := i + 1;
        }
        n := n - 1;
        ret := Read(h, obj, atom);
      }
    }

    /** pointer_deref. */
    method Get(h: Heap, arg: Value) returns (r: Option<Value>)
      requires Valid()
      ensures r == Deref(h, arg, Path())
    {
      ghost var p := Path();
      var i, obj := 0, arg;
      while i < n
        invariant i <= n && Deref(h, obj, p[i..]) == Deref(h, arg, p)
      {
        assert p[i..][0] == atoms[i] && p[i..][1..] == p[i+1..];
        if !HasProperty(h, obj, atoms[i]) {
          return None;
        }
        obj := GetProperty(h, obj, atoms[i]);
        i := i + 1;
      }
      return Some(obj);
    }

    /** pointer_acquire. */
    method AcquireFrom(realm: Realm, arg: Value) returns (obj: Value)
      requires Valid() && realm.Valid() && Live(realm.h, arg)
      modifies realm
      ensures realm.Valid() && unchanged(this)
      ensures Acquired(realm.h, realm.next, obj) == Acquire(old(realm.h), old(realm.next), arg, Path())
    {
      hide Acquire, IndexOfKey;
      ghost var p := Path();
      var i := 0;
      obj := arg;
      while i < n
        invariant i <= n && unchanged(this)
        invariant realm.Valid() && Live(realm.h, obj)
        invariant Acquire(realm.h, realm.next, obj, p[i..]) == Acquire(old(realm.h), old(realm.next), arg, p)
      {
        assert p[i..][0] == atoms[i] && p[i..][1..] == p[i+1..];
        assert |p[i..]| > 1 ==> p[i..][1] == atoms[i+1];
        AcquireStep(realm.h, realm.next, obj, p[i..]);
        var child;
        if !HasProperty(realm.h, obj, atoms[i]) {
          WithChildSpec(realm.h, realm.next, obj, p[i..]);
          var isArray := i + 1 < n && atoms[i+1].Index?;
          child := realm.NewObject(isArray);
          realm.SetProperty(obj, atoms[i], child);
        } else {
          child := GetProperty(realm.h, obj, atoms[i]);
          assert Lookup(realm.h, obj.id, atoms[i]) == Some(child);
        }
        obj := child;
        i := i + 1;
      }
      AcquireStep(realm.h, realm.next, obj, p[i..]);
    }
  }

  /** JS_GetProperty, undefined for a property that does not exist. */
  function Read(h: Heap, v: Value, k: Key): Value {
    if HasProperty(h, v, k) then GetProperty(h, v, k) else UNDEFINED
  }

  /** js_deep_set. */
  method Set(realm: Realm, root: Value, ptr: Pointer, x: Value) returns (obj: Value)
    requires ptr.Valid() && realm.Valid() && Live(realm.h, root)
    modifies realm, ptr
    ensures Acquired(realm.h, realm.next, obj)
         == DeepSet(old(realm.h), old(realm.next), root, old(ptr.Path()), x)
  {
    var prop := ptr.Pop();
    obj := ptr.AcquireFrom(realm, root);
    realm.SetProperty(obj, prop, x);
  }

  /** js_deep_unset; None when the path to the container throws. */
  method Unset(realm: Realm, root: Value, ptr: Pointer) returns (obj: Option<Value>)
    requires ptr.Valid()
    modifies realm, ptr
    ensures realm.h == DeepUnset(old(realm.h), root, old(ptr.Path())) && realm.next == old(realm.next)
    ensures obj == Deref(old(realm.h), root, Front(old(ptr.Path())))
  {
    var prop := ptr.Pop();
    obj := ptr.Get(realm.h, root);
    if obj.Some? {
      realm.h := Remove(realm.h, obj.value, prop);
    }
  }

  /** What repeated shifting reads. */
  function Shifted(h: Heap, v: Value, ks: seq<Key>): Value
    decreases |ks|
  {
    if ks == [] then v else Shifted(h, Read(h, v, ks[0]), ks[1..])
  }

  /** The first property that is missing reads as undefined. */
  lemma {:induction false} ShiftMisses(h: Heap, v: Value, ks: seq<Key>)
    requires ks != [] && Deref(h, v, Front(ks)).Some? && Deref(h, v, ks) == None
    ensures Shifted(h, v, ks) == Primitive("undefined")
    decreases |ks|
  {
    if |ks| == 1 {
      assert ks[1..] == [] && Shifted(h, v, ks) == Shifted(h, Read(h, v, ks[0]), []);
    } else {
      assert Front(ks)[1..] == Front(ks[1..]);
      ShiftMisses(h, GetProperty(h, v, ks[0]), ks[1..]);
    }
  }

  /** Along a path that exists, shifting ends where dereferencing does. */
  lemma {:induction false} ShiftFollowsDeref(h: Heap, v: Value, ks: seq<Key>)
    requires Deref(h, v, ks).Some?
    ensures Shifted(h, v, ks) == Deref(h, v, ks).value
    decreases |ks|
  {
    if ks != [] {
      ShiftFollowsDeref(h, GetProperty(h, v, ks[0]), ks[1..]);
    }
  }
}

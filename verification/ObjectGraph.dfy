/** The JS object graph as the C modules see it: own enumerable properties in enumeration order. */
module ObjectGraph {
  import opened Basics

  type ObjId = nat

  /** An atom: a tagged integer, any other property name, or JS_ATOM_NULL. */
  datatype Key = Index(n: nat) | Name(s: string) | NullAtom

  datatype Value = Primitive(p: string) | Object(id: ObjId)

  datatype Prop = Prop(key: Key, val: Value)

  datatype Obj = Obj(isArray: bool, props: seq<Prop>)

  type Heap = map<ObjId, Obj>


  ghost predicate DistinctKeys(ps: seq<Prop>) {
    forall i, j :: 0 <= i < j < |ps| ==> ps[i].key != ps[j].key
  }

  /** Keys of one object are distinct, a key table fits an int32_t index, no value dangles. */
  ghost predicate ValidHeap(h: Heap) {
    && (forall o :: o in h ==> DistinctKeys(h[o].props) && |h[o].props| <= INT32_MAX)
    && (forall o, i :: o in h && 0 <= i < |h[o].props| && h[o].props[i].val.Object? ==> h[o].props[i].val.id in h)
  }

  /** The position of key k in a property list, or the list's length. */
  function IndexOfKey(ps: seq<Prop>, k: Key): (i: nat)
    ensures i <= |ps|
    ensures i < |ps| ==> ps[i].key == k
    ensures forall j :: 0 <= j < i ==> ps[j].key != k
  {
    if ps == [] || ps[0].key == k then 0 else 1 + IndexOfKey(ps[1..], k)
  }

  /** JS_HasProperty: false on anything that is not an object. */
  predicate HasProperty(h: Heap, v: Value, k: Key) {
    v.Object? && v.id in h && IndexOfKey(h[v.id].props, k) < |h[v.id].props|
  }

  /** JS_GetProperty of a property that exists. */
  function GetProperty(h: Heap, v: Value, k: Key): Value
    requires HasProperty(h, v, k)
  {
    var ps := h[v.id].props;
    ps[IndexOfKey(ps, k)].val
  }

  lemma IndexOfKeyAt(ps: seq<Prop>, i: nat)
    requires DistinctKeys(ps) && i < |ps|
    ensures IndexOfKey(ps, ps[i].key) == i
  {
  }
}

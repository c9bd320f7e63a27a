/** Reading through a pointer. */
module Dereference {
  import opened Basics
  import opened ObjectGraph

  /** pointer_deref: None stands for the ReferenceError thrown at the first missing property. */
  function Deref(h: Heap, v: Value, ks: seq<Key>): Option<Value>
    decreases |ks|
  {
    if ks == [] then Some(v)
    else if HasProperty(h, v, ks[0]) then Deref(h, GetProperty(h, v, ks[0]), ks[1..])
    else None
  }

  lemma {:induction false} DerefConcat(h: Heap, v: Value, ks: seq<Key>, ls: seq<Key>)
    ensures Deref(h, v, ks + ls)
         == if Deref(h, v, ks).Some? then Deref(h, Deref(h, v, ks).value, ls) else None
    decreases |ks|
  {
    if ks == [] {
      assert ks + ls == ls;
    } else {
      assert (ks + ls)[1..] == ks[1..] + ls;
      if HasProperty(h, v, ks[0]) {
        DerefConcat(h, GetProperty(h, v, ks[0]), ks[1..], ls);
      }
    }
  }
}

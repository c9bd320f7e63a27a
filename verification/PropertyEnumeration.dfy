/** The explicit-stack walk: a vector of frames advanced in place. */
module PropertyEnumeration {

  import opened Basics
  import opened ObjectGraph
  import opened SimplePaths

  /** What remains to be visited once the walk leaves the subtree under the top of fs. */
  ghost function After(h: Heap, fs: Stack): seq<Stack>
    requires ValidHeap(h) && Simple(h, fs)
    decreases |fs|
  {
    if fs == [] then []
    else
      InitEnterable(h, fs);
      Preorder(h, Init(fs), Top(fs).obj, Top(fs).idx + 1) + After(h, Init(fs))
  }

  /** A stack of which only the top frame may have run out of properties. */
  ghost predicate Resting(h: Heap, fs: Stack) {
    fs != [] ==> Enterable(h, Init(fs), Top(fs).obj)
  }

  /** What remains to be visited, the path fs stands on included. */
  ghost function Todo(h: Heap, fs: Stack): seq<Stack>
    requires ValidHeap(h) && Resting(h, fs)
  {
    if fs == [] then []
    else Preorder(h, Init(fs), Top(fs).obj, Top(fs).idx) + After(h, Init(fs))
  }

  lemma InitEnterable(h: Heap, fs: Stack)
    requires Simple(h, fs) && fs != []
    ensures Enterable(h, Init(fs), Top(fs).obj)
    ensures fs == Init(fs) + [Frame(Top(fs).obj, Top(fs).idx)]
  {
  }

  lemma HeadAndRest(x: Stack, b: seq<Stack>, c: seq<Stack>, d: seq<Stack>)
    ensures ([x] + b + c) + d == [x] + (b + (c + d))
    ensures b == [] ==> [x] + (b + (c + d)) == [x] + (c + d)
  {
  }

  lemma {:induction false} PreorderHead(h: Heap, fs: Stack)
    requires ValidHeap(h) && Simple(h, fs) && fs != []
    ensures Enterable(h, Init(fs), Top(fs).obj)
    ensures Preorder(h, Init(fs), Top(fs).obj, Top(fs).idx)
         == [fs] + Below(h, fs) + Preorder(h, Init(fs), Top(fs).obj, Top(fs).idx + 1)
  {
    InitEnterable(h, fs);
  }

  /** A path is visited first, then what is below it, then the rest. */
  lemma {:induction false} TodoSplit(h: Heap, fs: Stack)
    requires ValidHeap(h) && Simple(h, fs) && fs != []
    ensures Resting(h, fs)
    ensures Todo(h, fs) == [fs] + (Below(h, fs) + After(h, fs))
    ensures Below(h, fs) == [] ==> Todo(h, fs) == [fs] + After(h, fs)
  {
    PreorderHead(h, fs);
    var here, b, d := Preorder(h, Init(fs), Top(fs).obj, Top(fs).idx), Below(h, fs), After(h, Init(fs));
    var c := Preorder(h, Init(fs), Top(fs).obj, Top(fs).idx + 1);
    HeadAndRest(fs, b, c, d);
    assert Todo(h, fs) == here + d;
    assert After(h, fs) == c + d;
  }

  /** gs is where the walk stands after fs: every path is visited once, none is left out. */
  ghost predicate Moved(h: Heap, fs: Stack, gs: Stack) {
    && ValidHeap(h) && Simple(h, gs) && Resting(h, fs) && Resting(h, gs)
    && Todo(h, fs) == [fs] + Todo(h, gs)
  }

  /** gs is the first path after fs that is not below fs. */
  ghost predicate Skipped(h: Heap, fs: Stack, gs: Stack) {
    && ValidHeap(h) && fs != [] && Simple(h, fs) && Simple(h, gs) && Resting(h, fs) && Resting(h, gs)
    && Todo(h, fs) == [fs] + (Below(h, fs) + Todo(h, gs))
  }

  /** Entering an object that is not on the stack: its first property comes next, or, when it has
      none, nothing at all comes from below. */
  lemma EnterStep(h: Heap, fs: Stack, o: ObjId, gs: Stack)
    requires ValidHeap(h) && Simple(h, fs) && fs != [] && gs == fs + [Frame(o, 0)]
    requires ValueAt(h, Top(fs)) == Object(o) && o !in Objs(fs)
    ensures o in h && Init(gs) == fs && (Len(h, o) == 0 ==> Below(h, fs) == [])
    ensures Len(h, o) > 0 ==> Moved(h, fs, gs)
  {
    if Len(h, o) > 0 {
      SimplePush(h, fs, o, 0);
      TodoSplit(h, fs);
      assert Init(gs) == fs;
    }
  }

  lemma NothingBelow(h: Heap, fs: Stack)
    requires ValidHeap(h) && Simple(h, fs) && fs != []
    requires ValueAt(h, Top(fs)).Object? ==> ValueAt(h, Top(fs)).id in Objs(fs)
    ensures Below(h, fs) == []
  {
  }

  /** Stepping to the next property of the same object leaves the subtree behind. */
  lemma SiblingStep(h: Heap, fs: Stack, gs: Stack)
    requires ValidHeap(h) && Simple(h, fs) && fs != []
    requires gs == Init(fs) + [Frame(Top(fs).obj, Top(fs).idx + 1)]
    ensures Len(h, Top(fs).obj) <= INT32_MAX
    ensures if Top(fs).idx + 1 < Len(h, Top(fs).obj)
            then Simple(h, gs) && Resting(h, gs) && Todo(h, gs) == After(h, fs)
            else After(h, fs) == After(h, Init(fs))
  {
    InitEnterable(h, fs);
    if Top(fs).idx + 1 < Len(h, Top(fs).obj) {
      SimplePush(h, Init(fs), Top(fs).obj, Top(fs).idx + 1);
      assert Init(gs) == Init(fs);
    }
  }

  /** Wherever the subtree of fs is left to, that is a skip, and a move if the subtree is empty. */
  lemma {:induction false} LeaveStep(h: Heap, fs: Stack, gs: Stack)
    requires ValidHeap(h) && Simple(h, fs) && fs != []
    requires Simple(h, gs) && Resting(h, gs) && Todo(h, gs) == After(h, fs)
    ensures Skipped(h, fs, gs) && (Below(h, fs) == [] ==> Moved(h, fs, gs))
  {
    TodoSplit(h, fs);
  }

  const INT_RANGE: int := 0x1_0000_0000
  const SIZE_RANGE: int := 0x1_0000_0000_0000_0000

  function ToInt32(n: nat): int {
    var m := n % INT_RANGE;
    if m <= INT32_MAX then m else m - INT_RANGE
  }

  /** vector_indexof of element i: it subtracts the element's address from the vector's. */
  function IndexOf(i: nat, elsz: nat): int
    requires elsz > 0
  {
    ToInt32((-(i * elsz) % SIZE_RANGE) / elsz)
  }

  lemma Quotient(n: int, d: int, q: int, r: int)
    requires d > 0 && n == q * d + r && 0 <= r < d
    ensures n / d == q
  {
    var p := n / d - q;
    assert p * d == r - n % d;
    assert p >= 1 ==> p * d >= d;
    assert p <= -1 ==> p * d <= -d;
  }

  /** For any element but the first that is the number of elements that fit below its address. */
  lemma IndexOfBelow(i: nat, elsz: nat)
    requires elsz > 0 && i * elsz <= SIZE_RANGE
    ensures SIZE_RANGE / elsz >= i
    ensures IndexOf(i, elsz) == if i == 0 then 0 else ToInt32(SIZE_RANGE / elsz - i)
  {
    var q, r, n := SIZE_RANGE / elsz, SIZE_RANGE % elsz, i * elsz;
    assert (q - i) * elsz + r == SIZE_RANGE - n;
    Quotient(SIZE_RANGE - n, elsz, q - i, r);
    if i > 0 {
      assert n >= 1 by { assert i * elsz >= elsz; }
      assert (-n) % SIZE_RANGE == SIZE_RANGE - n;
    } else {
      assert n == 0 && 0 / elsz == 0 by { Quotient(0, elsz, 0, 0); }
    }
  }

  /** So it is the element's index for the first element, and else only where the two happen to meet. */
  lemma IndexOfExact(i: nat, elsz: nat)
    requires elsz > 0 && i * elsz <= SIZE_RANGE && i <= INT32_MAX
    ensures IndexOf(i, elsz) == i <==> i == 0 || (SIZE_RANGE / elsz - 2 * i) % INT_RANGE == 0
  {
    IndexOfBelow(i, elsz);
    SameRest(SIZE_RANGE / elsz - i, i);
  }

  /** Frames of 40 bytes: the second one is reported as number 1717986917. */
  lemma IndexOfSecond()
    ensures IndexOf(1, 40) == 1_717_986_917
  {
    hide ToInt32;
    Quotient(SIZE_RANGE - 40, 40, 461168601842738789, 16);
    WrapTo(461168601842738789, 107374182, 1_717_986_917);
  }

  lemma WrapTo(n: nat, q: nat, m: nat)
    requires n == q * INT_RANGE + m && m <= INT32_MAX
    ensures ToInt32(n) == m
  {
    Quotient(n, INT_RANGE, q, m);
  }

  lemma SameRest(a: int, b: int)
    requires 0 <= b < INT_RANGE
    ensures a % INT_RANGE == b <==> (a - b) % INT_RANGE == 0
  {
  }

  /** Two different elements are not both reported as -1. */
  lemma IndexOfDiffers(i: nat, j: nat, elsz: nat)
    requires elsz > 0 && i * elsz <= SIZE_RANGE && j * elsz <= SIZE_RANGE
    requires i <= INT32_MAX && j <= INT32_MAX && i != j
    ensures IndexOf(i, elsz) != -1 || IndexOf(j, elsz) != -1
  {
    hide IndexOf;
    IndexOfBelow(i, elsz);
    IndexOfBelow(j, elsz);
    FarApart(SIZE_RANGE / elsz, i, j);
  }

  lemma FarApart(q: nat, i: nat, j: nat)
    requires i <= q && j <= q && i <= INT32_MAX && j <= INT32_MAX && i != j
    ensures ToInt32(q - i) != -1 || ToInt32(q - j) != -1
  {
  }

  lemma InMemory(i: nat, n: nat, elsz: nat)
    requires i <= n && n * elsz <= SIZE_RANGE
    ensures i * elsz <= SIZE_RANGE
  {
    assert n * elsz == i * elsz + (n - i) * elsz;
  }

  predicate SameObject(frames: Stack, i: nat, j: nat) {
    i < |frames| && j < |frames| && i != j && frames[i].obj == frames[j].obj
  }

  class FrameVector {
    const h: Heap
    var frames: Stack

    /** Between calls the stack is a simple path, or the single frame of a root without properties. */
    ghost predicate Valid()
      reads this
    {
      ValidHeap(h) && (Simple(h, frames) || EmptyRoot())
    }

    ghost predicate EmptyRoot()
      reads this
    {
      |frames| == 1 && frames[0].obj in h && frames[0].idx == 0 && Len(h, frames[0].obj) == 0
    }

    constructor (heap: Heap)
      requires ValidHeap(heap)
      ensures h == heap && frames == [] && Valid()
    {
      h := heap;
      frames := [];
    }

    /** property_enumeration_setpos on the back of the vector. */
    method SetPos(pos: int) returns (ok: bool)
      requires frames != [] && Top(frames).obj in h && Len(h, Top(frames).obj) <= INT32_MAX
      requires 0 <= pos + Len(h, Top(frames).obj) && pos <= INT32_MAX
      modifies this
      ensures var n := Len(h, Top(old(frames)).obj);
              var i := if pos < 0 then pos + n else pos;
              && ok == (i < n)
              && frames == if ok then Init(old(frames)) + [Frame(Top(old(frames)).obj, i)] else old(frames)
    {
      var idx, len := pos, Len(h, Top(frames).obj);
      if idx < 0 {
        idx := idx + len;
      }
      if idx >= len {
        return false;
      }
      frames := frames[|frames|-1 := Frame(Top(frames).obj, idx)];
      return true;
    }

    method Push(o: ObjId)
      requires o in h
      modifies this
      ensures frames == old(frames) + [Frame(o, 0)]
    {
      frames := frames + [Frame(o, 0)];
    }

    /** Drops the back frame; false stands for the null pointer of an emptied vector. */
    method Pop() returns (it: bool)
      requires frames != []
      modifies this
      ensures frames == Init(old(frames)) && it == (frames != [])
    {
      frames := frames[..|frames|-1];
      return frames != [];
    }

    /** Is the value one of the objects on the stack? */
    method Circular(v: Value) returns (r: bool)
      ensures r <==> v.Object? && v.id in Objs(frames)
    {
      var i := 0;
      while i < |frames|
        invariant i <= |frames|
        invariant forall k :: 0 <= k < i ==> v != Object(frames[k].obj)
      {
        if v == Object(frames[i].obj) {
          ObjsAre(frames, frames[i].obj);
          return true;
        }
        i := i + 1;
      }
      if v.Object? { ObjsAre(frames, v.id); }
      return false;
    }

    /** Whether two frames have the same object; what is reported of them is what vector_indexof makes
        of their places, for frames of elsz bytes. */
    method Check(elsz: nat) returns (r: (int, int))
      requires elsz > 0 && |frames| * elsz <= SIZE_RANGE && |frames| <= INT32_MAX + 1
      ensures r == (-1, -1) <==> forall i, j :: 0 <= i < j < |frames| ==> frames[i].obj != frames[j].obj
      ensures r != (-1, -1) ==>
                exists i, j :: SameObject(frames, i, j) && r == (IndexOf(i, elsz), IndexOf(j, elsz))
      ensures Valid() ==> r == (-1, -1)
    {
      hide IndexOf;
      if Simple(h, frames) { SimpleIsSimplePath(h, frames); }
      var i := 0;
      while i < |frames|
        invariant i <= |frames|
        invariant forall a, b :: 0 <= a < i && 0 <= b < |frames| && a != b ==> frames[a].obj != frames[b].obj
      {
        var j := 0;
        while j < |frames|
          invariant j <= |frames|
          invariant forall b :: 0 <= b < j && i != b ==> frames[i].obj != frames[b].obj
        {
          if i != j && frames[i].obj == frames[j].obj {
            InMemory(i, |frames|, elsz);
            InMemory(j, |frames|, elsz);
            IndexOfDiffers(i, j, elsz);
            assert SameObject(frames, i, j);
            return (IndexOf(i, elsz), IndexOf(j, elsz));
          }
          j := j + 1;
        }
        i := i + 1;
      }
      return (-1, -1);
    }

    /** Pushes the current value of the top frame; false when that object has no property idx. */
    method Enter(idx: nat) returns (it: bool)
      requires ValidHeap(h) && frames != [] && InRange(h, Top(frames)) && idx <= INT32_MAX
      requires ValueAt(h, Top(frames)).Object?
      modifies this
      ensures var o := ValueAt(h, Top(old(frames))).id;
              && o in h && it == (idx < Len(h, o))
              && frames == old(frames) + [Frame(o, if it then idx else 0)]
    {
      var value := ValueAt(h, Top(frames));
      Push(value.id);
      it := SetPos(idx);
    }

    /** The pop loop of recurse and skip: leave the top frame, then climb until a frame has a next
        property. */
    method Climb() returns (it: bool)
      requires ValidHeap(h) && frames != [] && Simple(h, Init(frames))
      modifies this
      ensures it == (frames != []) && Simple(h, frames)
      ensures Resting(h, frames) && Todo(h, frames) == After(h, Init(old(frames)))
      ensures |frames| < |old(frames)|
    {
      hide Below, Preorder, Objs, ValidHeap;
      while true
        invariant frames != [] && Simple(h, Init(frames))
        invariant After(h, Init(frames)) == After(h, Init(old(frames))) && |frames| <= |old(frames)|
        decreases |frames|
      {
        it := Pop();
        if !it {
          return;
        }
        SiblingStep(h, frames, Init(frames) + [Frame(Top(frames).obj, Top(frames).idx + 1)]);
        it := SetPos(Top(frames).idx + 1);
        if it {
          return;
        }
      }
    }

    /** The next path in preorder; false when there is none. */
    method Recurse() returns (it: bool)
      requires Valid()
      modifies this
      ensures |frames| <= |old(frames)| + 1
      ensures Valid() && Simple(h, frames) && it == (frames != [])
      ensures old(frames) == [] ==> frames == []
      ensures old(frames) != [] && Simple(h, old(frames)) ==> Moved(h, old(frames), frames)
      ensures !Simple(h, old(frames)) ==> frames == []
    {
      hide Moved, After, Below, Todo, Preorder, Resting, Objs, ValidHeap;
      if frames == [] {
        return false;
      }
      ghost var fs := frames;
      var someProperty := Len(h, Top(frames).obj) > 0;
      assert someProperty <==> Simple(h, fs);
      if someProperty {
        ghost var next := Init(fs) + [Frame(Top(fs).obj, Top(fs).idx + 1)];
        SiblingStep(h, fs, next);
        var value := ValueAt(h, Top(frames));
        var circular := false;
        if value.Object? {
          circular := Circular(value);
        }
        if value.Object? && !circular {
          EnterStep(h, fs, value.id, fs + [Frame(value.id, 0)]);
          it := Enter(0);
          if it {
            return;
          }
        } else {
          NothingBelow(h, fs);
          it := SetPos(Top(frames).idx + 1);
          if it {
            LeaveStep(h, fs, frames);
            return;
          }
        }
      }
      it := Climb();
      if someProperty {
        LeaveStep(h, fs, frames);
      }
    }

    /** The next path in preorder that is not below the current one; false when there is none. */
    method Skip() returns (it: bool)
      requires Valid()
      modifies this
      ensures |frames| <= |old(frames)|
      ensures Valid() && Simple(h, frames) && it == (frames != [])
      ensures old(frames) == [] ==> frames == []
      ensures old(frames) != [] && Simple(h, old(frames)) ==> Skipped(h, old(frames), frames)
      ensures !Simple(h, old(frames)) ==> frames == []
    {
      hide Skipped, After, Below, Todo, Preorder, Resting, Objs, ValidHeap;
      if frames == [] {
        return false;
      }
      ghost var fs := frames;
      var someProperty := Len(h, Top(frames).obj) > 0;
      assert someProperty <==> Simple(h, fs);
      if someProperty {
        SiblingStep(h, fs, Init(fs) + [Frame(Top(fs).obj, Top(fs).idx + 1)]);
        it := SetPos(Top(frames).idx + 1);
        if it {
          LeaveStep(h, fs, frames);
          return;
        }
      }
      it := Climb();
      if someProperty {
        LeaveStep(h, fs, frames);
      }
    }
  }
}

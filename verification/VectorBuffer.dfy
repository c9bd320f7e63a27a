/** The byte vector as a growing sequence of fixed-size elements. */
module VectorBuffers {
  import opened Basics
  import opened Vectors

  type Bytes = seq<Byte>

  function Zeros(n: nat): (z: Bytes)
    ensures |z| == n
  {
    seq(n, _ => 0 as Byte)
  }

  /** The elements of size elsz that a run of bytes holds; a rest too short for one is ignored. */
  function Elements(s: Bytes, elsz: nat): (es: seq<Bytes>)
    requires elsz > 0
    decreases |s|
  {
    if |s| < elsz then [] else [s[..elsz]] + Elements(s[elsz..], elsz)
  }

  lemma {:induction false} ElementsConcat(s: Bytes, t: Bytes, elsz: nat)
    requires elsz > 0 && |s| % elsz == 0
    ensures Elements(s + t, elsz) == Elements(s, elsz) + Elements(t, elsz)
    decreases |s|
  {
    if s == [] {
      assert s + t == t;
    } else {
      Whole(|s|, elsz);
      assert (s + t)[elsz..] == s[elsz..] + t;
      assert (s + t)[..elsz] == s[..elsz];
      ElementsConcat(s[elsz..], t, elsz);
    }
  }

  /** A positive multiple is at least one unit, and one unit less is a multiple again. */
  lemma Whole(n: nat, elsz: nat)
    requires elsz > 0 && n > 0 && n % elsz == 0
    ensures n >= elsz && (n - elsz) % elsz == 0 && n / elsz >= 1
    ensures (n / elsz) * elsz == n && (n / elsz - 1) * elsz == n - elsz
    ensures elsz * (n / elsz - 1) == n - elsz
  {
    var q := n / elsz;
    assert n == q * elsz;
    Units(q - 1, elsz);
  }

  lemma Following(n: nat, elsz: nat)
    requires elsz > 0 && n % elsz == 0
    ensures n / elsz >= 0 && (n / elsz) * elsz == n && elsz * (n / elsz + 1) == n + elsz
  {
    assert n == (n / elsz) * elsz;
  }

  lemma StepOver(i: nat, elsz: nat)
    requires elsz > 0 && i % elsz == 0
    ensures (i + elsz) % elsz == 0
  {
    Units(i / elsz + 1, elsz);
  }

  lemma NoElements(elsz: nat)
    requires elsz > 0
    ensures Elements([], elsz) == []
  {
  }

  lemma Units(q: int, elsz: nat)
    requires elsz > 0
    ensures (q * elsz) % elsz == 0 && (q * elsz) / elsz == q
  {
    Uniquely(q, (q * elsz) / elsz, (q * elsz) % elsz, elsz);
  }

  lemma Uniquely(q: int, p: int, r: int, elsz: int)
    requires elsz > 0 && 0 <= r < elsz && q * elsz == p * elsz + r
    ensures q == p && r == 0
  {
    assert (q - p) * elsz == r;
    assert q - p >= 1 ==> (q - p) * elsz >= elsz;
    assert q - p <= -1 ==> (q - p) * elsz <= -elsz;
  }

  /** One whole element appended to whole elements is the new last one, and dropping it undoes that. */
  lemma AppendElement(s: Bytes, x: Bytes, elsz: nat)
    requires elsz > 0 && |s| % elsz == 0 && |x| == elsz
    ensures Elements(s + x, elsz) == Elements(s, elsz) + [x]
  {
    ElementsConcat(s, x, elsz);
    assert x[..elsz] == x && x[elsz..] == [];
  }

  function Unit(elsz: nat): nat { if elsz < 8 then 1000 else 8000 }

  /** roundto, where the 64-bit addition does not wrap. */
  function RoundTo(n: nat, elsz: nat): int {
    if elsz < 8 then n + 999 - (n + 999) % 1000 else n + 7999 - (n + 7999) % 8000
  }

  lemma Thousands(n: nat)
    ensures var r := n + 999 - (n + 999) % 1000;
            n <= r < n + 1000 && r % 1000 == 0
  {
    var q := (n + 999) / 1000;
    assert n + 999 - (n + 999) % 1000 == 1000 * q;
  }

  lemma EightThousands(n: nat)
    ensures var r := n + 7999 - (n + 7999) % 8000;
            n <= r < n + 8000 && r % 8000 == 0
  {
    var q := (n + 7999) / 8000;
    assert n + 7999 - (n + 7999) % 8000 == 8000 * q;
  }

  /** It is the first whole number of blocks that holds n bytes. */
  lemma RoundToBlocks(n: nat, elsz: nat)
    ensures n <= RoundTo(n, elsz) < n + Unit(elsz)
    ensures if elsz < 8 then RoundTo(n, elsz) % 1000 == 0 else RoundTo(n, elsz) % 8000 == 0
  {
    Thousands(n);
    EightThousands(n);
  }

  /**
   * Where vector_allocate's own assertion on the rounded size holds: rounding up to whole
   * blocks must not wrap.
   */
  ghost predicate Roundable(elsz: nat, pos: int) {
    elsz * (pos + 1) < W64 ==> elsz * (pos + 1) + Unit(elsz) <= W64
  }

  /** Whether the allocator's answer is at least what vector_allocate asks it for. */
  ghost predicate Enough(capacity: nat, need: nat, elsz: nat, granted: nat) {
    need > capacity ==> granted >= RoundTo(need, elsz)
  }

  class Vector {
    var data: array<Byte>
    var size: nat

    ghost predicate Valid()
      reads this
    {
      size <= data.Length
    }

    ghost function Contents(): Bytes
      reads this, data
      requires Valid()
    {
      data[..size]
    }

    /** VECTOR_INIT. */
    constructor ()
      ensures Valid() && Contents() == [] && data.Length == 0 && fresh(data)
    {
      data := new Byte[0];
      size := 0;
    }

    /**
     * vector_allocate: the offset of element pos, or -1. granted is the capacity that
     * dbuf_realloc gives when asked; less than asked for means that it failed.
     */
    method Allocate(elsz: nat, pos: int, granted: nat) returns (at: int)
      requires Valid() && elsz < W64 && -0x8000_0000 <= pos < INT32_MAX && Roundable(elsz, pos)
      modifies this
      ensures Valid() && (data == old(data) || fresh(data))
      ensures at == -1 <==> pos < 0 || elsz * (pos + 1) >= W64
                            || (elsz * (pos + 1) > old(size)
                                && !Enough(old(data.Length), elsz * (pos + 1), elsz, granted))
      ensures at == -1 ==> data == old(data) && size == old(size)
      ensures at != -1 ==> at == pos * elsz && at + elsz <= size
                           && size == if elsz * (pos + 1) > old(size) then elsz * (pos + 1) else old(size)
      ensures old(data.Length) <= data.Length
      ensures data[..] == old(data[..]) + Zeros(data.Length - old(data.Length))
    {
      ghost var was := data[..];
      assert was + Zeros(0) == was;
      if pos < 0 {
        return -1;
      }
      MulMonotone(0, 0, elsz, pos + 1);
      assert elsz * (pos + 1) == elsz * pos + elsz == pos * elsz + elsz;
      MulMonotone(0, 0, elsz, pos);
      var fits, need := Umult64(elsz, pos + 1);
      if !fits {
        return -1;
      }
      if need > size {
        if need > data.Length {
          RoundToBlocks(need, elsz);
          var rounded := RoundTo(need, elsz);
          assert rounded >= 1000;
          if granted < rounded {
            return -1;
          }
          Grow(granted);
        }
        size := (pos + 1) * elsz;
      }
      at := pos * elsz;
    }

    /** dbuf_realloc and the memset after it: what was there stays, the new part is zero. */
    method Grow(capacity: nat)
      requires Valid() && capacity >= data.Length
      modifies this
      ensures Valid() && fresh(data) && data.Length == capacity && size == old(size)
      ensures data[..] == old(data[..]) + Zeros(capacity - old(data.Length))
    {
      var grown := new Byte[capacity](_ => 0);
      for i := 0 to data.Length
        invariant data == old(data) && size == old(size) && data[..] == old(data[..])
        invariant forall k :: 0 <= k < i ==> grown[k] == data[k]
        invariant forall k :: i <= k < capacity ==> grown[k] == 0
      {
        grown[i] := data[i];
      }
      data := grown;
    }

    /** memcpy into the buffer. */
    method CopyTo(pos: nat, bytes: Bytes)
      requires pos + |bytes| <= data.Length
      modifies data
      ensures data[..pos] == old(data[..pos])
      ensures data[pos..pos + |bytes|] == bytes
    {
      for i := 0 to |bytes|
        invariant forall k :: 0 <= k < pos ==> data[k] == old(data[k])
        invariant forall k :: 0 <= k < i ==> data[pos + k] == bytes[k]
      {
        data[pos + i] := bytes[i];
      }
    }

    /**
     * vector_put: append the bytes, or nothing at all. It fails when the allocator does, and when
     * the position of the last byte no longer fits 32 bits with a sign.
     */
    method Put(bytes: Bytes, granted: nat) returns (ok: bool)
      requires Valid() && size + |bytes| <= W32 && size + |bytes| != INT32_MAX + 1
      modifies this, data
      ensures Valid() && (data == old(data) || fresh(data))
      ensures ok <==> bytes == [] || (old(size) + |bytes| <= INT32_MAX
                                      && Enough(old(data.Length), old(size) + |bytes|, 1, granted))
      ensures Contents() == if ok then old(Contents()) + bytes else old(Contents())
    {
      if |bytes| == 0 {
        return true;
      }
      var pos := size;
      ghost var was := data[..];
      var last := size + |bytes| - 1;
      var at := Allocate(1, if last > INT32_MAX then last - W32 else last, granted);
      assert data[..old(size)] == was[..old(size)];
      if at == -1 {
        return false;
      }
      CopyTo(pos, bytes);
      assert data[..size] == data[..pos] + data[pos..size];
      return true;
    }

    /**
     * vector_emplace on whole elements: one more element, with the bytes that lie there; they are
     * zero only where the buffer had not been used before.
     */
    method Emplace(elsz: nat, granted: nat) returns (at: int)
      requires Valid() && 0 < elsz < W64 && size % elsz == 0
      requires size / elsz < INT32_MAX && (size + elsz >= W64 || size + elsz + Unit(elsz) <= W64)
      modifies this
      ensures Valid() && (data == old(data) || fresh(data))
      ensures old(data.Length) <= data.Length
      ensures at != -1 ==> at == old(size) && size == old(size) + elsz
      ensures at != -1 ==> Contents() == (old(data[..]) + Zeros(data.Length - old(data.Length)))[..old(size) + elsz]
      ensures at != -1 ==> Elements(Contents(), elsz) == old(Elements(Contents(), elsz)) + [data[at..size]]
      ensures at == -1 <==> old(size) + elsz >= W64 || !Enough(old(data.Length), old(size) + elsz, elsz, granted)
      ensures at == -1 ==> data == old(data) && size == old(size)
    {
      hide Elements, Roundable, Enough;
      Following(size, elsz);
      ghost var was, held := data[..], data[..size];
      var n := size / elsz;
      assert elsz * (n + 1) == size + elsz && n >= 0;
      at := Allocate(elsz, n, granted);
      if at != -1 {
        assert data[..at] == held;
        assert data[..size] == held + data[at..size];
        AppendElement(held, data[at..size], elsz);
      }
    }

    /** vector_shrink: keep the first len elements, if there are that many. */
    method Shrink(elsz: nat, len: int)
      requires Valid() && size < W64 && elsz < W64 && -0x8000_0000 <= len <= INT32_MAX
      modifies this`size
      ensures Valid()
      ensures Contents() == if 0 <= len && elsz * len <= old(size) then old(data[..elsz * len]) else old(Contents())
    {
      if len < 0 {
        return;
      }
      MulMonotone(0, 0, elsz, len);
      var fits, need := Umult64(elsz, len);
      if !fits || need > size {
        return;
      }
      size := need;
    }

    /** vector_at: the offset of element pos, or -1. */
    method At(elsz: nat, pos: int) returns (at: int)
      requires Valid() && size < W64 && elsz < W64 && -0x8000_0000 <= pos <= INT32_MAX
      ensures at == if pos >= 0 && pos * elsz < size then pos * elsz else -1
    {
      if pos < 0 {
        return -1;
      }
      MulMonotone(0, 0, elsz, pos);
      var fits, offs := Umult64(elsz, pos);
      assert elsz * pos == pos * elsz;
      at := if !fits || offs >= size then -1 else offs;
    }

    /** vector_find: the number of the first element equal to x, or -1. */
    method Find(elsz: nat, x: Bytes) returns (at: int)
      requires Valid() && elsz > 0 && size % elsz == 0 && |x| == elsz
      ensures -1 <= at < |Elements(Contents(), elsz)|
      ensures at == -1 ==> x !in Elements(Contents(), elsz)
      ensures at >= 0 ==> Elements(Contents(), elsz)[at] == x && x !in Elements(Contents(), elsz)[..at]
    {
      hide Elements;
      var i, j := 0, 0;
      ghost var held := Contents();
      NoElements(elsz);
      assert held[..0] == [];
      while i < size
        invariant 0 <= i <= size && i % elsz == 0 && (size - i) % elsz == 0
        invariant |Elements(held[..i], elsz)| == j && x !in Elements(held[..i], elsz)
      {
        Whole(size - i, elsz);
        StepOver(i, elsz);
        assert held[..i + elsz] == held[..i] + held[i..i + elsz];
        AppendElement(held[..i], held[i..i + elsz], elsz);
        if data[i..i + elsz] == x {
          assert held == held[..i + elsz] + held[i + elsz..];
          ElementsConcat(held[..i + elsz], held[i + elsz..], elsz);
          return j;
        }
        i, j := i + elsz, j + 1;
      }
      assert held[..i] == held;
      return -1;
    }

    /** vector_back: where the last element is. */
    method Back(elsz: nat) returns (at: int)
      requires Valid() && 0 < elsz <= size < W64 && size % elsz == 0 && size / elsz <= INT32_MAX
      ensures at == size - elsz && Elements(Contents(), elsz) != []
      ensures data[at..size] == Elements(Contents(), elsz)[|Elements(Contents(), elsz)| - 1]
    {
      Whole(size, elsz);
      at := At(elsz, size / elsz - 1);
      assert data[..size] == data[..at] + data[at..size];
      AppendElement(data[..at], data[at..size], elsz);
    }

    /** vector_pop on whole elements: the last one goes, the answer is where it was. */
    method Pop(elsz: nat) returns (at: int)
      requires Valid() && 0 < elsz <= size < W64 && size % elsz == 0 && size / elsz <= INT32_MAX
      modifies this`size
      ensures Valid() && at == size == old(size) - elsz
      ensures Contents() == old(Contents())[..at]
      ensures old(Elements(Contents(), elsz)) == Elements(Contents(), elsz) + [old(data[size - elsz..size])]
    {
      Whole(size, elsz);
      ghost var held := data[..size];
      Shrink(elsz, size / elsz - 1);
      assert held == data[..size] + held[size..];
      AppendElement(data[..size], held[size..], elsz);
      at := size;
    }
  }
}

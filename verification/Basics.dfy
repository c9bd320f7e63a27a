/** What several of the other modules need. */
module Basics {

  datatype Option<+T> = None | Some(value: T)

  type Byte = b: int | 0 <= b < 256

  const INT32_MAX: int := 0x7fff_ffff

  /** The value of a char, which has a sign. */
  function SignedChar(n: nat): int {
    if n < 128 then n else n - 256
  }

  /** str_chr from position i on: the first place of c, or the length. */
  function Find(t: string, i: nat, c: char): (k: nat)
    requires i <= |t|
    ensures i <= k <= |t| && (k < |t| ==> t[k] == c) && forall j :: i <= j < k ==> t[j] != c
    decreases |t| - i
  {
    if i == |t| || t[i] == c then i else Find(t, i + 1, c)
  }

  lemma Regroup<T>(a: seq<T>, b: seq<T>, c: seq<T>)
    ensures a + (b + c) == (a + b) + c
  {
  }

  lemma Joined<T>(s: seq<T>, i: nat, j: nat, k: nat)
    requires i <= j <= k <= |s|
    ensures s[i..k] == s[i..j] + s[j..k]
  {
  }
}

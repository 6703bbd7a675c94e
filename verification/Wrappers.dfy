/** Optional values, bytes, and a few facts about sequences, shared by the other modules. */
module Wrappers {

  /** A reference that may be null, or a result that may be missing. */
  datatype Option<+T> = None | Some(value: T)

  /** One octet (uint8_t). */
  newtype byte = x: int | 0 <= x < 0x100

  function Max(a: int, b: int): int { if a > b then a else b }

  /** No element occurs twice. */
  predicate Once<T(==)>(s: seq<T>) {
    forall i, j | 0 <= i < j < |s| :: s[i] != s[j]
  }

  lemma OnceCons<T>(x: T, s: seq<T>)
    requires Once(s) && x !in s
    ensures Once([x] + s)
  {
  }

  lemma Concat<T>(a: seq<T>, b: seq<T>, c: seq<T>)
    ensures (a + b) + c == a + (b + c)
  {
  }
}

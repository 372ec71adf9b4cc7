/** What several modules use: options, sequences without duplicates, and machine words. */
module Basics {
  datatype Option<+T> = None | Some(value: T)

  ghost predicate NoDuplicates<T>(s: seq<T>) {
    forall i, j :: 0 <= i < j < |s| ==> s[i] != s[j]
  }

  lemma Associative<T>(a: seq<T>, b: seq<T>, c: seq<T>)
    ensures (a + b) + c == a + (b + c)
  {
  }

  function Min(a: int, b: int): int {
    if a < b then a else b
  }

  // ----- machine words

  const P16 := 0x1_0000
  const P31 := 0x8000_0000
  const P32 := 0x1_0000_0000
  const P63 := 0x8000_0000_0000_0000
  const P64 := 0x1_0000_0000_0000_0000

  /** The signed number that the low 32 bits of a number stand for. */
  function AsInt32(x: int): (y: int)
    requires -P31 <= x < P32
    ensures -P31 <= y < P31 && (y - x) % P32 == 0 && (y == x <==> x < P31)
  {
    if x < P31 then x else x - P32
  }

  /** The unsigned difference of two 32-bit numbers. */
  function Difference32(a: nat, b: nat): (c: nat)
    requires a < P32 && b < P32
    ensures c == (a - b) % P32
  {
    if b <= a then a - b else P32 + a - b
  }

  /** The unsigned sum of two 32-bit numbers. */
  function Sum32(a: nat, b: nat): (c: nat)
    requires a < P32 && b < P32
    ensures c == (a + b) % P32
  {
    if a + b < P32 then a + b else a + b - P32
  }
}

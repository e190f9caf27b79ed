/** What several parts of the kernel share. */
module Basics {

  const MAX_PROCESS := 10     // slots of the process table

  datatype Status = Unuse | Ready | Running | Waiting | Deaded

  // ---- 32-bit arithmetic of the compiled code

  const TWO32 := 0x1_0000_0000

  function U32(x: int): int { x % TWO32 }

  function S32(x: int): int {
    if U32(x) < 0x8000_0000 then U32(x) else U32(x) - TWO32
  }

  // ---- values

  function Min(a: nat, b: nat): nat { if a < b then a else b }

  lemma Times(a: int, b: int, c: nat)
    ensures a <= b ==> a * c <= b * c
  {
  }

  function Abs(x: int): nat { if x < 0 then -x else x }

  datatype Option<T> = None | Some(value: T)

  function RemoveAt<T>(s: seq<T>, i: nat): (r: seq<T>)
    requires i < |s|
    ensures |r| == |s| - 1 && forall j :: 0 <= j < |r| ==> r[j] == s[if j < i then j else j + 1]
  {
    s[..i] + s[i + 1..]
  }
}

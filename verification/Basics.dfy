/** Types and notions that several components share. */
module Basics {
  datatype Option<T> = None | Some(value: T)

  const WORD32: nat := 0x1_0000_0000
  const WORD64: nat := 0x1_0000_0000_0000_0000

  type byte = x: int | 0 <= x < 256

  ghost predicate Distinct(l: seq<nat>) {
    forall i, j :: 0 <= i < j < |l| ==> l[i] != l[j]
  }

  function RemoveAt<T>(l: seq<T>, i: nat): seq<T>
    requires i < |l|
  {
    l[..i] + l[i + 1..]
  }

  lemma RemoveAtMembers(l: seq<nat>, i: nat)
    requires i < |l| && Distinct(l)
    ensures forall p :: p in RemoveAt(l, i) <==> p in l && p != l[i]
  {
    forall p | p in l && p != l[i] ensures p in RemoveAt(l, i) {
      var k :| 0 <= k < |l| && l[k] == p;
      assert RemoveAt(l, i)[if k < i then k else k - 1] == p;
    }
  }
}

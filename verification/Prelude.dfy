/// What several of the models share.

module Prelude {

  datatype Option<+T> = None | Some(value: T)

  /** How many values an `unsigned` has. */
  const UINT: nat := 0x1_0000_0000

  ghost predicate NoRepeats<T>(s: seq<T>) {
    forall i, j :: 0 <= i < j < |s| ==> s[i] != s[j]
  }

  lemma {:induction false} DistinctSize<T>(s: seq<T>)
    requires NoRepeats(s)
    ensures |set x | x in s| == |s|
  {
    if s != [] {
      var front, last := s[..|s| - 1], s[|s| - 1];
      DistinctSize(front);
      assert last !in front;
      assert (set x | x in s) == (set x | x in front) + {last};
    }
  }

  function Pow2(k: nat): (r: nat)
    ensures r > 0 && (k > 0 ==> r % 2 == 0)
  {
    if k == 0 then 1 else 2 * Pow2(k - 1)
  }

  lemma PowersNearUInt()
    ensures Pow2(30) == 0x4000_0000 && Pow2(31) == 0x8000_0000 && Pow2(32) == UINT
  {
    assert Pow2(10) == 1024;
    assert Pow2(20) == 0x10_0000;
    assert Pow2(30) == 0x4000_0000;
  }
}

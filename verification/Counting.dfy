/** Counting arguments, and powers of two. */
module Counting {
  function Pow2(n: nat): nat { if n == 0 then 1 else 2 * Pow2(n - 1) }

  /** Different numbers from 1 to m fill that range when there are m of them. */
  lemma {:induction false} Filled(s: seq<int>, m: nat, v: int)
    requires |s| == m && (forall i :: 0 <= i < m ==> 1 <= s[i] <= m) && (forall i, j :: 0 <= i < j < m ==> s[i] != s[j])
    requires 1 <= v <= m
    ensures v in s
    decreases m
  {
    if i :| 0 <= i < m && s[i] == m {
      var r := s[..i] + s[i + 1..];
      if v < m { Filled(r, m - 1, v); }
    } else {
      assert forall i :: 0 <= i < m - 1 ==> s[i] == s[..m - 1][i];
      Filled(s[..m - 1], m - 1, s[m - 1]);
      assert false;
    }
  }
}

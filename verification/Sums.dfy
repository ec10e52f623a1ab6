/** Sums over integer sequences. */
module Sums {

  function Sum(s: seq<int>): int {
    if s == [] then 0 else s[0] + Sum(s[1..])
  }

  lemma {:induction false} SumConcat(s: seq<int>, t: seq<int>)
    ensures Sum(s + t) == Sum(s) + Sum(t)
  {
    if s == [] {
      assert s + t == t;
    } else {
      SumConcat(s[1..], t);
      assert (s + t)[1..] == s[1..] + t;
    }
  }

  lemma SumPrefix(s: seq<int>, k: nat)
    requires k < |s|
    ensures Sum(s[..k + 1]) == Sum(s[..k]) + s[k]
  {
    assert s[..k + 1] == s[..k] + [s[k]];
    SumConcat(s[..k], [s[k]]);
  }

  lemma SumWhole(s: seq<int>)
    ensures s[..|s|] == s && Sum(s[..|s|]) == Sum(s) && Sum(s[..0]) == 0
  {
    assert s[..|s|] == s;
  }

  lemma {:induction false} SumUpdate(s: seq<int>, k: nat, v: int)
    requires k < |s|
    ensures Sum(s[k := v]) == Sum(s) - s[k] + v
  {
    var t := s[k := v];
    if k == 0 {
      assert t[1..] == s[1..];
    } else {
      SumUpdate(s[1..], k - 1, v);
      assert t[1..] == s[1..][k - 1 := v];
    }
  }

  lemma SumRemove(s: seq<int>, k: nat)
    requires k < |s|
    ensures Sum(s[..k] + s[k + 1..]) == Sum(s) - s[k]
  {
    assert s == s[..k] + ([s[k]] + s[k + 1..]);
    SumConcat(s[..k], [s[k]] + s[k + 1..]);
    SumConcat([s[k]], s[k + 1..]);
    SumConcat(s[..k], s[k + 1..]);
  }

  lemma SumAppend(s: seq<int>, v: int)
    ensures Sum(s + [v]) == Sum(s) + v
  {
    SumConcat(s, [v]);
  }

  lemma {:induction false} SumNonNegative(s: seq<int>)
    requires forall i :: 0 <= i < |s| ==> 0 <= s[i]
    ensures 0 <= Sum(s)
    ensures forall i :: 0 <= i < |s| ==> s[i] <= Sum(s)
  {
    if s == [] {
    } else {
      SumNonNegative(s[1..]);
      forall i | 0 <= i < |s|
        ensures s[i] <= Sum(s)
      {
        if i > 0 {
          assert s[i] == s[1..][i - 1];
        }
      }
    }
  }

  /** A prefix of non-negative entries never sums to more than the whole. */
  lemma SumPrefixBound(s: seq<int>, k: nat)
    requires k <= |s| && forall i :: 0 <= i < |s| ==> 0 <= s[i]
    ensures 0 <= Sum(s[..k]) <= Sum(s)
  {
    assert s == s[..k] + s[k..];
    SumConcat(s[..k], s[k..]);
    SumNonNegative(s[..k]);
    SumNonNegative(s[k..]);
  }
}
